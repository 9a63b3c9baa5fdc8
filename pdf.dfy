/**
 * Layout-ordered text linearisation of a PDF: once the PDF library has
 * delivered each page's blocks, the blocks are put in reading order, text
 * blocks with non-blank text are kept, and each kept block becomes a marker
 * line `!!<page>,<y>!!` followed by its stripped text.
 */
module Pdf {
  import opened Wrappers
  import opened Text
  import opened Layout
  import opened Seqs

  /** Opening the byte buffer as a PDF failed. */
  datatype DocumentParseError = DocumentParseError

  /** A kept block together with the 1-based number of its page. */
  datatype Paragraph = Paragraph(page: int, block: Block)

  /** Python's `int(y)` on a float: truncation toward zero, so `-0.5`
      becomes `0` where `Floor` would give `-1`. */
  function Trunc(y: real): int {
    if y >= 0.0 then y.Floor else -((-y).Floor)
  }

  /** `Trunc(y)` is the integer next to `y` on the side of zero: it never
      moves away from zero and moves by less than one. */
  lemma TruncSpec(y: real)
    ensures 0.0 <= y ==> Trunc(y) as real <= y < Trunc(y) as real + 1.0
    ensures y < 0.0 ==> Trunc(y) as real - 1.0 < y <= Trunc(y) as real
  {
  }

  /** The marker line `!!<page>,<y>!!`. */
  function Marker(page: int, y: int): string {
    "!!" + IntToDecimal(page) + "," + IntToDecimal(y) + "!!"
  }

  /** A marker opens and closes with `!!` and stays on one line. */
  lemma MarkerShape(page: int, y: int)
    ensures var m := Marker(page, y);
      |m| >= 7 && m[..2] == "!!" && m[|m| - 2..] == "!!" && NoNewline(m)
  {
    var a, b := IntToDecimal(page), IntToDecimal(y);
    IntToDecimalShape(page);
    IntToDecimalShape(y);
    var m := Marker(page, y);
    assert m == "!!" + (a + "," + b) + "!!";
    forall k | 0 <= k < |m| ensures m[k] != '\n' {
      if 2 <= k < 2 + |a| { assert m[k] == a[k - 2]; }
      else if 3 + |a| <= k < 3 + |a| + |b| { assert m[k] == b[k - 3 - |a|]; }
    }
  }

  lemma CommaAt(a: string, b: string)
    requires ',' !in a
    ensures (a + "," + b)[|a|] == ','
    ensures forall k :: 0 <= k < |a| ==> (a + "," + b)[k] != ','
  {
  }

  lemma {:induction false} CommaSplit(a: string, b: string, c: string, d: string)
    requires ',' !in a && ',' !in c
    requires a + "," + b == c + "," + d
    ensures a == c && b == d
  {
    var s := a + "," + b;
    CommaAt(a, b);
    CommaAt(c, d);
    assert a == s[..|a|] && c == s[..|c|];
    assert b == s[|a| + 1..] && d == s[|c| + 1..];
  }

  /** A marker line determines its page number and its coordinate. */
  lemma MarkerInjective(p1: int, y1: int, p2: int, y2: int)
    requires Marker(p1, y1) == Marker(p2, y2)
    ensures p1 == p2 && y1 == y2
  {
    var m1, m2 := Marker(p1, y1), Marker(p2, y2);
    var a, b := IntToDecimal(p1), IntToDecimal(y1);
    var c, d := IntToDecimal(p2), IntToDecimal(y2);
    assert m1 == "!!" + (a + "," + b) + "!!";
    assert m2 == "!!" + (c + "," + d) + "!!";
    assert a + "," + b == m1[2..|m1| - 2];
    assert c + "," + d == m2[2..|m2| - 2];
    IntToDecimalShape(p1);
    IntToDecimalShape(p2);
    CommaSplit(a, b, c, d);
    IntToDecimalInjective(p1, p2);
    IntToDecimalInjective(y1, y2);
  }

  /** A block yields output exactly when it is a text block (type 0) whose
      text is not all whitespace. */
  predicate Retained(b: Block) {
    b.blockType == 0 && !AllSpace(b.text)
  }

  /** `Retained` is the test the extraction loop applies to each block. */
  lemma RetainedIff(b: Block)
    ensures Retained(b) <==> b.blockType == 0 && Strip(b.text) != []
  {
    StripSpec(b.text);
  }

  /** The two lines one block contributes on page `page`: none unless it is a
      text block whose stripped text is not empty. */
  function BlockLines(page: int, b: Block): seq<string> {
    if b.blockType == 0 && Strip(b.text) != [] then [Marker(page, Trunc(b.y0)), Strip(b.text)] else []
  }

  function BlockLinesOn(page: int): Block -> seq<string> {
    b => BlockLines(page, b)
  }

  /** The lines of a run of blocks taken in the given order. */
  function RunLines(page: int, bs: seq<Block>): seq<string> {
    Concat(BlockLinesOn(page), bs)
  }

  lemma RunLinesStep(done: seq<string>, page: int, bs: seq<Block>, j: nat)
    requires j < |bs|
    ensures done + RunLines(page, bs[..j]) + BlockLines(page, bs[j]) == done + RunLines(page, bs[..j + 1])
  {
    ConcatPrefix(BlockLinesOn(page), bs, j);
  }

  /** The lines of one page: its blocks in reading order, then each block's lines. */
  function PageLines(page: int, blocks: seq<Block>): seq<string> {
    RunLines(page, SortByKey(blocks))
  }

  /** A page with its 1-based number. */
  datatype Page = Page(number: int, blocks: seq<Block>)

  function NumberPages(doc: seq<seq<Block>>): seq<Page> {
    seq(|doc|, i requires 0 <= i < |doc| => Page(i + 1, doc[i]))
  }

  function PageLinesOf(pg: Page): seq<string> {
    PageLines(pg.number, pg.blocks)
  }

  /** The lines of a whole document: the lines of each page in turn. */
  function DocumentLines(doc: seq<seq<Block>>): seq<string> {
    Concat(PageLinesOf, NumberPages(doc))
  }

  lemma DocumentLinesPrefix(doc: seq<seq<Block>>, i: nat)
    requires i < |doc|
    ensures DocumentLines(doc[..i + 1]) == DocumentLines(doc[..i]) + PageLines(i + 1, doc[i])
  {
    var pages := NumberPages(doc);
    assert NumberPages(doc[..i + 1]) == pages[..i + 1];
    assert NumberPages(doc[..i]) == pages[..i];
    ConcatPrefix(PageLinesOf, pages, i);
  }

  /** The retained blocks of `bs`, in their order in `bs`. */
  function RetainedBlocks(bs: seq<Block>): seq<Block> {
    Filter(Retained, bs)
  }

  function Tag(page: int): Block -> Paragraph {
    b => Paragraph(page, b)
  }

  function OnPage(page: int, bs: seq<Block>): seq<Paragraph> {
    Map(Tag(page), bs)
  }

  /** The paragraphs of one page: its retained blocks in reading order. */
  function PageParagraphs(pg: Page): seq<Paragraph> {
    OnPage(pg.number, RetainedBlocks(SortByKey(pg.blocks)))
  }

  /** The paragraphs of a document, page by page. */
  function Paragraphs(doc: seq<seq<Block>>): seq<Paragraph> {
    Concat(PageParagraphs, NumberPages(doc))
  }

  /** The two lines of one paragraph: its marker, then its stripped text. */
  function ParagraphLines(p: Paragraph): seq<string> {
    [Marker(p.page, Trunc(p.block.y0)), Strip(p.block.text)]
  }

  /** The output lines of a run of paragraphs, two for each. */
  function Emit(ps: seq<Paragraph>): seq<string> {
    Concat(ParagraphLines, ps)
  }

  /** Keeping some blocks of a sorted run leaves it sorted. */
  lemma {:induction false} FilterSorted(keep: Block -> bool, bs: seq<Block>)
    requires Sorted(bs)
    ensures Sorted(Filter(keep, bs))
  {
    if bs != [] {
      var init, last := bs[..|bs| - 1], bs[|bs| - 1];
      assert Sorted(init);
      FilterSorted(keep, init);
      var t := Filter(keep, init);
      if keep(last) {
        forall x | x in t ensures KeyLe(x, last) {
          FilterMember(keep, init, x);
          var i :| 0 <= i < |init| && init[i] == x;
          assert bs[i] == x;
        }
        var r := t + [last];
        forall i, j | 0 <= i < j < |r| ensures KeyLe(r[i], r[j]) {
          if j == |t| { assert r[i] in t; } else { assert r[i] == t[i] && r[j] == t[j]; }
        }
      }
    }
  }

  /** Keeping some blocks commutes with taking the blocks of one key. */
  lemma {:induction false} KeyClassFilter(keep: Block -> bool, bs: seq<Block>, k: Block)
    ensures KeyClass(Filter(keep, bs), k) == Filter(keep, KeyClass(bs, k))
  {
    if bs != [] {
      var init, last := bs[..|bs| - 1], bs[|bs| - 1];
      KeyClassFilter(keep, init, k);
      var kept := if keep(last) then [last] else [];
      KeyClassAppend(Filter(keep, init), kept, k);
      assert bs == init + [last];
      KeyClassAppend(init, [last], k);
      var same := if SameKey(last, k) then [last] else [];
      assert KeyClass([last], k) == same;
      FilterAppend(keep, KeyClass(init, k), same);
      assert KeyClass(kept, k) == Filter(keep, same) by {
        assert Filter(keep, [last]) == kept;
      }
    }
  }

  /** Sorting and then keeping some blocks, as the extraction loop does, is
      the same as keeping them first and then sorting. */
  lemma SortFilterCommute(keep: Block -> bool, s: seq<Block>)
    ensures Filter(keep, SortByKey(s)) == SortByKey(Filter(keep, s))
  {
    var r := Filter(keep, SortByKey(s));
    SortByKeySpec(s);
    FilterSorted(keep, SortByKey(s));
    forall k ensures KeyClass(r, k) == KeyClass(Filter(keep, s), k) {
      KeyClassFilter(keep, SortByKey(s), k);
      SortStable(s, k);
      KeyClassFilter(keep, s, k);
    }
    SortUnique(Filter(keep, s), r);
  }

  /** One block's lines are the lines of its paragraph when it is retained,
      and nothing otherwise. */
  lemma BlockLinesRetained(page: int, b: Block)
    ensures BlockLines(page, b) == if Retained(b) then ParagraphLines(Paragraph(page, b)) else []
  {
    RetainedIff(b);
  }

  lemma RunLinesEmit(page: int, bs: seq<Block>)
    ensures RunLines(page, bs) == Emit(OnPage(page, RetainedBlocks(bs)))
  {
    forall b ensures BlockLinesOn(page)(b) == if Retained(b) then ParagraphLines(Tag(page)(b)) else [] {
      BlockLinesRetained(page, b);
    }
    ConcatFilterMap(BlockLinesOn(page), ParagraphLines, Retained, Tag(page), bs);
  }

  /** A page's lines depend only on its retained blocks, taken in reading
      order: every other block leaves no trace. */
  lemma PageLinesOfRetained(page: int, blocks: seq<Block>)
    ensures PageLines(page, blocks) == Emit(OnPage(page, SortByKey(RetainedBlocks(blocks))))
  {
    RunLinesEmit(page, SortByKey(blocks));
    SortFilterCommute(Retained, blocks);
  }

  /** An image block, or a text block whose text is blank, changes nothing
      wherever it sits among a page's blocks. */
  lemma DroppedBlockIgnored(page: int, blocks: seq<Block>, i: nat, b: Block)
    requires i <= |blocks| && !Retained(b)
    ensures PageLines(page, blocks[..i] + [b] + blocks[i..]) == PageLines(page, blocks)
  {
    var with := blocks[..i] + [b] + blocks[i..];
    assert RetainedBlocks(with) == RetainedBlocks(blocks) by {
      FilterAppend(Retained, blocks[..i] + [b], blocks[i..]);
      FilterAppend(Retained, blocks[..i], [b]);
      FilterAppend(Retained, blocks[..i], blocks[i..]);
      assert Filter(Retained, [b]) == [];
      assert blocks[..i] + blocks[i..] == blocks;
    }
    PageLinesOfRetained(page, with);
    PageLinesOfRetained(page, blocks);
  }

  /** The document's lines are the lines of its paragraphs. */
  lemma DocumentLinesEmit(doc: seq<seq<Block>>)
    ensures DocumentLines(doc) == Emit(Paragraphs(doc))
  {
    forall pg ensures PageLinesOf(pg) == Concat(ParagraphLines, PageParagraphs(pg)) {
      RunLinesEmit(pg.number, SortByKey(pg.blocks));
    }
    ConcatConcat(PageLinesOf, ParagraphLines, PageParagraphs, NumberPages(doc));
  }

  /** The lines of a document are, for each paragraph in turn, its marker
      `!!<page>,<trunc(y0)>!!` at an even position and its stripped text
      right after it. */
  lemma DocumentLinesShape(doc: seq<seq<Block>>)
    ensures |DocumentLines(doc)| == 2 * |Paragraphs(doc)|
    ensures forall k :: 0 <= k < |Paragraphs(doc)| ==>
      var p := Paragraphs(doc)[k];
      DocumentLines(doc)[2 * k] == Marker(p.page, Trunc(p.block.y0))
      && DocumentLines(doc)[2 * k + 1] == Strip(p.block.text)
  {
    DocumentLinesEmit(doc);
    ConcatPairs(ParagraphLines, Paragraphs(doc));
  }

  /** Paragraph `k` is the `j`-th retained block, in reading order, of page
      `i + 1`, and the paragraphs of the pages before it come first. */
  lemma ParagraphAt(doc: seq<seq<Block>>, k: nat) returns (i: nat, j: nat)
    requires k < |Paragraphs(doc)|
    ensures i < |doc| && j < |RetainedBlocks(SortByKey(doc[i]))|
    ensures Paragraphs(doc)[k] == Paragraph(i + 1, RetainedBlocks(SortByKey(doc[i]))[j])
    ensures k == |Concat(PageParagraphs, NumberPages(doc)[..i])| + j
  {
    i, j := ConcatIndex(PageParagraphs, NumberPages(doc), k);
  }

  /** Every paragraph is a retained block, a text block (type 0) with
      non-blank text, of its own page, and pages are numbered from 1. */
  lemma ParagraphsRetained(doc: seq<seq<Block>>)
    ensures forall k :: 0 <= k < |Paragraphs(doc)| ==>
      var p := Paragraphs(doc)[k];
      1 <= p.page <= |doc| && p.block in doc[p.page - 1] && Retained(p.block)
  {
    forall k | 0 <= k < |Paragraphs(doc)|
      ensures 1 <= Paragraphs(doc)[k].page <= |doc|
      ensures Paragraphs(doc)[k].block in doc[Paragraphs(doc)[k].page - 1]
      ensures Retained(Paragraphs(doc)[k].block)
    {
      var i, j := ParagraphAt(doc, k);
      var sorted := SortByKey(doc[i]);
      var x := RetainedBlocks(sorted)[j];
      FilterMember(Retained, sorted, x);
      SortByKeySpec(doc[i]);
      assert x in multiset(sorted);
    }
  }

  /** Conversely, every retained block of page `i + 1` is one of the
      document's paragraphs. */
  lemma ParagraphsComplete(doc: seq<seq<Block>>, i: nat, b: Block)
    requires i < |doc| && b in doc[i] && Retained(b)
    ensures Paragraph(i + 1, b) in Paragraphs(doc)
  {
    var sorted := SortByKey(doc[i]);
    SortByKeySpec(doc[i]);
    assert b in multiset(sorted);
    FilterMember(Retained, sorted, b);
    var kept := RetainedBlocks(sorted);
    var j :| 0 <= j < |kept| && kept[j] == b;
    var pg := NumberPages(doc)[i];
    assert PageParagraphs(pg)[j] == Paragraph(i + 1, b);
    ConcatMember(PageParagraphs, NumberPages(doc), i, Paragraph(i + 1, b));
  }

  /** The number of retained blocks on the pages of `doc`. */
  function RetainedCount(doc: seq<seq<Block>>): nat {
    if doc == [] then 0 else RetainedCount(doc[..|doc| - 1]) + |RetainedBlocks(doc[|doc| - 1])|
  }

  /** Sorting a page neither adds nor loses retained blocks. */
  lemma PageParagraphCount(pg: Page)
    ensures |PageParagraphs(pg)| == |RetainedBlocks(pg.blocks)|
  {
    SortFilterCommute(Retained, pg.blocks);
    SortByKeySpec(RetainedBlocks(pg.blocks));
    assert |multiset(SortByKey(RetainedBlocks(pg.blocks)))| == |multiset(RetainedBlocks(pg.blocks))|;
  }

  /** There is one paragraph per retained block of the input. */
  lemma {:induction false} ParagraphCount(doc: seq<seq<Block>>)
    ensures |Paragraphs(doc)| == RetainedCount(doc)
  {
    if doc != [] {
      var n := |doc| - 1;
      ParagraphCount(doc[..n]);
      var pages := NumberPages(doc);
      assert NumberPages(doc[..n]) == pages[..n];
      assert pages[..n + 1] == pages;
      ConcatPrefix(PageParagraphs, pages, n);
      PageParagraphCount(pages[n]);
    }
  }

  /** The line list holds exactly two lines per retained block. */
  lemma LineCount(doc: seq<seq<Block>>)
    ensures |DocumentLines(doc)| == 2 * RetainedCount(doc)
  {
    DocumentLinesShape(doc);
    ParagraphCount(doc);
  }

  /** Pages come in document order, and within a page the paragraphs come in
      ascending `(y0, x0)` order. */
  lemma ParagraphsOrdered(doc: seq<seq<Block>>)
    ensures forall k1, k2 :: 0 <= k1 < k2 < |Paragraphs(doc)| ==>
      Paragraphs(doc)[k1].page <= Paragraphs(doc)[k2].page
      && (Paragraphs(doc)[k1].page == Paragraphs(doc)[k2].page ==>
            KeyLe(Paragraphs(doc)[k1].block, Paragraphs(doc)[k2].block))
  {
    var ps := Paragraphs(doc);
    forall k1, k2 | 0 <= k1 < k2 < |ps|
      ensures ps[k1].page <= ps[k2].page
      ensures ps[k1].page == ps[k2].page ==> KeyLe(ps[k1].block, ps[k2].block)
    {
      var i1, j1 := ParagraphAt(doc, k1);
      var i2, j2 := ParagraphAt(doc, k2);
      ConcatIndexOrder(PageParagraphs, NumberPages(doc), i1, j1, i2, j2);
      if i1 == i2 {
        SortByKeySpec(doc[i1]);
        FilterSorted(Retained, SortByKey(doc[i1]));
      }
    }
  }

  /** Every text line of the output is non-empty and has no leading or
      trailing whitespace. */
  lemma TextLinesStripped(doc: seq<seq<Block>>)
    ensures |DocumentLines(doc)| == 2 * |Paragraphs(doc)|
    ensures forall k :: 0 <= k < |Paragraphs(doc)| ==>
      var t := DocumentLines(doc)[2 * k + 1];
      t != [] && !IsSpace(t[0]) && !IsSpace(t[|t| - 1]) && Strip(t) == t
  {
    DocumentLinesShape(doc);
    ParagraphsRetained(doc);
    forall k | 0 <= k < |Paragraphs(doc)|
      ensures var t := DocumentLines(doc)[2 * k + 1];
        t != [] && !IsSpace(t[0]) && !IsSpace(t[|t| - 1]) && Strip(t) == t
    {
      RetainedIff(Paragraphs(doc)[k].block);
      StripSpec(Paragraphs(doc)[k].block.text);
      StripIdempotent(Paragraphs(doc)[k].block.text);
    }
  }

  /** The marker line of paragraph `k`. */
  lemma MarkerLineOf(doc: seq<seq<Block>>, k: nat)
    requires k < |Paragraphs(doc)|
    ensures |DocumentLines(doc)| == 2 * |Paragraphs(doc)|
    ensures var p := Paragraphs(doc)[k];
      DocumentLines(doc)[2 * k] == Marker(p.page, Trunc(p.block.y0))
  {
    DocumentLinesShape(doc);
  }

  /** The text line of paragraph `k`. */
  lemma TextLineOf(doc: seq<seq<Block>>, k: nat)
    requires k < |Paragraphs(doc)|
    ensures |DocumentLines(doc)| == 2 * |Paragraphs(doc)|
    ensures DocumentLines(doc)[2 * k + 1] == Strip(Paragraphs(doc)[k].block.text)
  {
    DocumentLinesShape(doc);
  }

  lemma ParagraphRetained(doc: seq<seq<Block>>, k: nat)
    requires k < |Paragraphs(doc)|
    ensures Retained(Paragraphs(doc)[k].block)
  {
    ParagraphsRetained(doc);
  }

  /** The first line of a non-empty document is the marker of its first
      paragraph, which opens with `!!`. */
  lemma FirstLine(doc: seq<seq<Block>>)
    requires Paragraphs(doc) != []
    ensures var lines := DocumentLines(doc);
      lines != [] && |lines[0]| >= 2 && lines[0][..2] == "!!"
  {
    var p := Paragraphs(doc)[0];
    MarkerLineOf(doc, 0);
    MarkerShape(p.page, Trunc(p.block.y0));
  }

  /** The last line of a non-empty document is the text of its last
      paragraph, which ends in a character that is not whitespace. */
  lemma LastLine(doc: seq<seq<Block>>)
    requires Paragraphs(doc) != []
    ensures var lines := DocumentLines(doc);
      lines != [] && Last(lines) != [] && !IsSpace(Last(lines)[|Last(lines)| - 1])
  {
    var n := |Paragraphs(doc)|;
    var p := Paragraphs(doc)[n - 1];
    TextLineOf(doc, n - 1);
    ParagraphRetained(doc, n - 1);
    StripLast(p.block.text);
  }

  /** The joined output is empty exactly when no block was kept. */
  lemma JoinedEmpty(doc: seq<seq<Block>>)
    ensures JoinLines(DocumentLines(doc)) == "" <==> Paragraphs(doc) == []
  {
    if Paragraphs(doc) == [] {
      assert DocumentLines(doc) == [] by { DocumentLinesShape(doc); }
    } else {
      FirstLine(doc);
      JoinLinesEnds(DocumentLines(doc));
    }
  }

  /** When some block was kept, the joined output starts with a marker and
      does not end with a newline or other whitespace. */
  lemma JoinedOutput(doc: seq<seq<Block>>)
    requires Paragraphs(doc) != []
    ensures var text := JoinLines(DocumentLines(doc));
      |text| >= 2 && text[..2] == "!!" && !IsSpace(text[|text| - 1])
  {
    FirstLine(doc);
    LastLine(doc);
    JoinedEnds(DocumentLines(doc));
  }

  /** Paragraph `k`'s marker has no newline, nor has its text when its
      stripped text has none. */
  lemma PairNoNewline(doc: seq<seq<Block>>, k: nat)
    requires k < |Paragraphs(doc)| && NoNewline(Strip(Paragraphs(doc)[k].block.text))
    ensures |DocumentLines(doc)| == 2 * |Paragraphs(doc)|
    ensures NoNewline(DocumentLines(doc)[2 * k]) && NoNewline(DocumentLines(doc)[2 * k + 1])
  {
    var p := Paragraphs(doc)[k];
    MarkerLineOf(doc, k);
    MarkerShape(p.page, Trunc(p.block.y0));
    TextLineOf(doc, k);
  }

  /** Splitting the output on newlines gives back the line list, provided
      no kept text holds a newline of its own; a text with inner newlines
      spreads over several pieces instead. */
  lemma SplitRecoversLines(doc: seq<seq<Block>>)
    requires Paragraphs(doc) != []
    requires forall k :: 0 <= k < |Paragraphs(doc)| ==> NoNewline(Strip(Paragraphs(doc)[k].block.text))
    ensures SplitLines(JoinLines(DocumentLines(doc))) == DocumentLines(doc)
  {
    var lines := DocumentLines(doc);
    DocumentLinesShape(doc);
    forall m | 0 <= m < |lines| ensures NoNewline(lines[m]) {
      var k := m / 2;
      PairNoNewline(doc, k);
      assert m == 2 * k || m == 2 * k + 1;
    }
    SplitJoinLines(lines);
  }

  /** With no kept block the output is the empty string, which splits into
      one empty piece rather than into no lines. */
  lemma SplitEmptyOutput(doc: seq<seq<Block>>)
    requires Paragraphs(doc) == []
    ensures SplitLines(JoinLines(DocumentLines(doc))) == [""] != DocumentLines(doc)
  {
    JoinedEmpty(doc);
    DocumentLinesShape(doc);
  }

  /** The nested loops of `extract_text_with_markers`: pages numbered from 1,
      each page's blocks sorted into reading order, and a marker line and a
      text line appended for every kept block. */
  method CollectLines(doc: seq<seq<Block>>) returns (fullText: seq<string>)
    ensures fullText == DocumentLines(doc)
  {
    fullText := [];
    for i := 0 to |doc|
      invariant fullText == DocumentLines(doc[..i])
    {
      var pageNum := i + 1;
      var blocks := SortByKey(doc[i]);
      ghost var done := fullText;
      for j := 0 to |blocks|
        invariant fullText == done + RunLines(pageNum, blocks[..j])
      {
        var block := blocks[j];
        ghost var before := fullText;
        if block.blockType == 0 {
          var yCoord := Trunc(block.y0);
          var textContent := Strip(block.text);
          if textContent != [] {
            var marker := Marker(pageNum, yCoord);
            fullText := fullText + [marker];
            fullText := fullText + [textContent];
          }
        }
        assert fullText == before + BlockLines(pageNum, block);
        RunLinesStep(done, pageNum, blocks, j);
      }
      assert blocks[..|blocks|] == blocks;
      DocumentLinesPrefix(doc, i);
    }
    assert doc[..|doc|] == doc;
  }

  /** `extract_text_with_markers`: `parsed` is the outcome of opening the
      bytes as a PDF, either the list of pages, each holding its list of
      blocks, or the parse error, which is passed on unchanged. */
  method ExtractTextWithMarkers(parsed: Result<seq<seq<Block>>, DocumentParseError>)
    returns (r: Result<string, DocumentParseError>)
    ensures parsed.Failure? ==> r == Failure(parsed.error)
    ensures parsed.Success? ==> r == Success(JoinLines(DocumentLines(parsed.value)))
  {
    if parsed.Failure? {
      return Failure(parsed.error);
    }
    var fullText := CollectLines(parsed.value);
    return Success(JoinLines(fullText));
  }
}
