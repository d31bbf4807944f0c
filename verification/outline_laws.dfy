/** What the outline parsers promise, stated over all inputs, and the concrete
    outlines that pin down their behaviour on the edges. */
module OutlineLaws {
  import opened Wrappers
  import opened PyStr
  import opened Decimal
  import opened Seqs
  import opened Outline

  /** The blocks cover the stripped outline exactly: joined back with blank lines
      they give `text.strip()`, so no text is lost or duplicated between slides. */
  lemma BlocksCoverText(text: string)
    ensures Join(BlockSep, Blocks(text)) == Strip(text)
  {
    JoinSplit(Strip(text), BlockSep);
  }

  /** The same holds of the lines of one block. */
  lemma LinesCoverBlock(block: string)
    ensures Join(LineSep, Lines(block)) == Strip(block)
  {
    JoinSplit(Strip(block), LineSep);
  }

  /** An empty or all-whitespace outline still gives exactly one slide, titled
      "Slide 1", with no bullets. */
  lemma BlankOutline(text: string)
    requires AllSpace(text)
    ensures Parse(text) == [ParsedSlide("Slide 1", [])]
  {
    assert Strip(text) == "";
    assert Find("", BlockSep).None?;
    assert Blocks(text) == [""];
    assert Strip("") == "" by { assert AllSpace(""); }
    assert Find("", LineSep).None?;
    assert Lines("") == [""];
    assert !Contains("", FieldSep);
    assert NatToDecimal(1) == "1";
    assert FallbackTitle(0) == "Slide 1";
    assert Bullets([""]) == [];
  }

  /** A block that carries a title reads the same at every position: only the
      fallback title depends on where the block stands. */
  lemma TitledAnyPosition(block: string, i: nat, j: nat)
    requires Titled(block)
    ensures ParseBlock(block, i) == ParseBlock(block, j)
  {
    assert StrictBlock(block).Some?;
  }

  /** Reading two lists of blocks one after the other gives the readings of each,
      when every block of the second carries its own title. */
  lemma ParseBlocksConcat(xs: seq<string>, ys: seq<string>)
    requires All(ys, Titled)
    ensures ParseBlocks(xs + ys) == ParseBlocks(xs) + ParseBlocks(ys)
  {
    forall k | 0 <= k < |ys| ensures ParseBlock(ys[k], |xs| + k) == ParseBlock(ys[k], k) {
      TitledAnyPosition(ys[k], |xs| + k, k);
    }
    MapIndexedConcat(xs, ys, ParseBlock);
  }

  /** Two stripped, non-empty outlines joined by a blank line have the blocks of the
      first followed by the blocks of the second. */
  lemma ConcatBlocks(a: string, b: string)
    requires a != [] && Strip(a) == a && b != [] && Strip(b) == b
    ensures Blocks(a + BlockSep + b) == Blocks(a) + Blocks(b)
  {
    var t := a + BlockSep + b;
    assert t[0] == a[0] && t[|t| - 1] == b[|b| - 1];
    StripOfTrimmed(t);
    NoStraddlePair(a, BlockSep, b);
    SplitConcat(a, BlockSep, b);
  }

  /** Parsing two stripped outlines joined by a blank line gives the slides of the
      first followed by those of the second, provided every block of the second
      carries its own title (fallback titles are numbered by position). */
  lemma ParseConcat(a: string, b: string)
    requires a != [] && Strip(a) == a && b != [] && Strip(b) == b
    requires ParseStrict(b).Ok?
    ensures Parse(a + BlockSep + b) == Parse(a) + Parse(b)
  {
    ConcatBlocks(a, b);
    ParseBlocksConcat(Blocks(a), Blocks(b));
  }

  /** The strict parser accepts the joined outline exactly when it accepts both parts,
      and then returns the slides of both in order. */
  lemma ParseStrictConcat(a: string, b: string)
    requires a != [] && Strip(a) == a && b != [] && Strip(b) == b
    ensures ParseStrict(a + BlockSep + b).Ok? <==> ParseStrict(a).Ok? && ParseStrict(b).Ok?
    ensures ParseStrict(a + BlockSep + b).Ok? ==> ParseStrict(a + BlockSep + b).value == Parse(a) + Parse(b)
  {
    ConcatBlocks(a, b);
    AllConcat(Blocks(a), Blocks(b), Titled);
    if ParseStrict(a).Ok? && ParseStrict(b).Ok? {
      ParseConcat(a, b);
    }
  }

  /** No title or bullet of a slide holds a line break. */
  predicate NoBreaks(s: ParsedSlide) {
    && '\n' !in s.title
    && forall j :: 0 <= j < |s.bullets| ==> '\n' !in s.bullets[j]
  }

  lemma LinesNoBreak(block: string)
    ensures forall i :: 0 <= i < |Lines(block)| ==> '\n' !in Lines(block)[i]
  {
    var lines := Lines(block);
    SplitPiecesFree(Strip(block), LineSep);
    forall i | 0 <= i < |lines| ensures '\n' !in lines[i] {
      ContainsChar(lines[i], '\n');
    }
  }

  /** What follows `": "` in a line is a suffix of it. */
  lemma CutIsSuffix(line: string, r: string, c: char)
    requires CutAfterFirst(line, r) && c !in line
    ensures c !in r
  {
    var k := |line| - |r| - |FieldSep|;
    assert r == line[k + |FieldSep|..];
  }

  lemma BulletNoBreak(line: string)
    requires '\n' !in line
    ensures '\n' !in Bullet(line)
  {
    if Contains(line, FieldSep) {
      CutIsSuffix(line, Bullet(line), '\n');
    }
  }

  lemma FallbackNoBreak(i: nat)
    ensures '\n' !in FallbackTitle(i)
  {
    var d := NatToDecimal(i + 1);
    assert forall j :: 0 <= j < |d| ==> IsDigit(d[j]);
  }

  lemma BlockNoBreaks(block: string, i: nat)
    ensures NoBreaks(ParseBlock(block, i))
  {
    var s := ParseBlock(block, i);
    var lines := Lines(block);
    LinesNoBreak(block);
    if Contains(lines[0], FieldSep) {
      CutIsSuffix(lines[0], s.title, '\n');
    } else {
      FallbackNoBreak(i);
    }
    forall j | 0 <= j < |s.bullets| ensures '\n' !in s.bullets[j] {
      BulletNoBreak(lines[j + 1]);
    }
  }

  /** Every title and bullet the parser produces is a single line. */
  lemma ParseNoBreaks(text: string)
    ensures forall i :: 0 <= i < |Parse(text)| ==> NoBreaks(Parse(text)[i])
  {
    var r := Parse(text);
    forall i | 0 <= i < |r| ensures NoBreaks(r[i]) {
      BlockNoBreaks(Blocks(text)[i], i);
    }
  }

  /** The content text of a slide with at least one bullet, split at its line breaks
      (one paragraph per line), gives back exactly its bullets. */
  lemma ContentParagraphs(s: ParsedSlide)
    requires NoBreaks(s) && |s.bullets| >= 1
    ensures Split(ContentText(s), LineSep) == s.bullets
  {
    SplitJoin(s.bullets, '\n');
  }

  /** Different positions get different fallback titles. */
  lemma FallbackTitleInjective(i: nat, j: nat)
    requires FallbackTitle(i) == FallbackTitle(j)
    ensures i == j
  {
    var p := "Slide ";
    assert NatToDecimal(i + 1) == FallbackTitle(i)[|p|..];
    NatToDecimalInjective(i + 1, j + 1);
  }

  /** Lines that are not empty and hold no line break, joined with line breaks, form
      one block whose lines are those lines again. */
  lemma OneBlock(lines: seq<string>)
    requires |lines| >= 1
    requires forall i :: 0 <= i < |lines| ==> |lines[i]| > 0 && '\n' !in lines[i]
    ensures Split(Join(LineSep, lines), BlockSep) == [Join(LineSep, lines)]
    ensures Split(Join(LineSep, lines), LineSep) == lines
  {
    JoinNoDoubled(lines, '\n');
    SplitJoin(lines, '\n');
  }

  /** A line whose first `": "` sits at `k` gives the text after it as its title. */
  lemma FieldAt(line: string, k: nat)
    requires OccursAt(line, FieldSep, k) && ':' !in line[..k]
    ensures AfterFirst(line, FieldSep) == Some(line[k + 2..])
  {
    FindFirstByChar(line, FieldSep, k);
  }

  const L1: string := "Slide 1 Title: Intro"
  const L2: string := "Slide 1 Content: Hello"
  const L3: string := "World"
  const L4: string := "Slide 2 Title: Done"

  /** A two-block outline in the format the outline prompt asks for: a block of three
      lines, a blank line, and a block of one line. */
  const B1: string := L1 + "\n" + L2 + "\n" + L3
  const Example: string := B1 + "\n\n" + L4

  lemma ExampleJoin()
    ensures Join(LineSep, [L1, L2, L3]) == B1
  {
    assert [L1, L2, L3][1..] == [L2, L3];
    assert [L2, L3][1..] == [L3];
    assert Join(LineSep, [L2, L3]) == L2 + LineSep + L3;
  }

  lemma ExampleFirstBlock()
    ensures Split(B1, BlockSep) == [B1]
    ensures Split(B1, LineSep) == [L1, L2, L3]
  {
    ExampleJoin();
    OneBlock([L1, L2, L3]);
  }

  lemma ExampleSecondBlock()
    ensures Split(L4, BlockSep) == [L4]
    ensures Split(L4, LineSep) == [L4]
  {
    OneBlock([L4]);
  }

  lemma ExampleTrimmed()
    ensures Strip(Example) == Example
  {
    StripOfTrimmed(Example);
  }

  lemma ExampleNoStraddle()
    ensures NoStraddle(B1, BlockSep, L4)
  {
    NoStraddlePair(B1, BlockSep, L4);
  }

  lemma ExampleSplit()
    ensures Split(Example, BlockSep) == Split(B1, BlockSep) + Split(L4, BlockSep)
  {
    ExampleNoStraddle();
    SplitConcat(B1, BlockSep, L4);
  }

  lemma ExampleSplitBlocks()
    ensures Split(Example, BlockSep) == [B1, L4]
  {
    ExampleSplit();
    ExampleFirstBlock();
    ExampleSecondBlock();
  }

  lemma ExampleBlocks()
    ensures Blocks(Example) == [B1, L4]
  {
    ExampleTrimmed();
    ExampleSplitBlocks();
  }

  lemma ExampleFirstLines()
    ensures Lines(B1) == [L1, L2, L3]
  {
    StripOfTrimmed(B1);
    ExampleFirstBlock();
  }

  lemma ExampleSecondLines()
    ensures Lines(L4) == [L4]
  {
    StripOfTrimmed(L4);
    ExampleSecondBlock();
  }

  lemma ExampleTitle1() ensures AfterFirst(L1, FieldSep) == Some("Intro") { FieldAt(L1, 13); }
  lemma ExampleBullet2() ensures Bullet(L2) == "Hello" { FieldAt(L2, 15); }
  lemma ExampleBullet3() ensures Bullet(L3) == "World" { NoOccurrenceByChar(L3, FieldSep); }
  lemma ExampleTitle4() ensures AfterFirst(L4, FieldSep) == Some("Done") { FieldAt(L4, 13); }

  lemma ExampleBullets()
    ensures Bullets([L1, L2, L3]) == ["Hello", "World"]
  {
    ExampleBullet2();
    ExampleBullet3();
  }

  lemma ExampleSlide1()
    ensures ParseBlock(B1, 0) == ParsedSlide("Intro", ["Hello", "World"])
  {
    ExampleFirstLines();
    ExampleTitle1();
    ExampleBullets();
  }

  lemma ExampleTitled1()
    ensures Titled(B1)
  {
    ExampleFirstLines();
    ExampleTitle1();
  }

  lemma ExampleSlide2()
    ensures ParseBlock(L4, 1) == ParsedSlide("Done", [])
    ensures Titled(L4)
  {
    ExampleSecondLines();
    ExampleTitle4();
    assert Bullets([L4]) == [];
  }

  lemma PairIs(r: seq<ParsedSlide>, s1: ParsedSlide, s2: ParsedSlide)
    requires |r| == 2 && r[0] == s1 && r[1] == s2
    ensures r == [s1, s2]
  {
  }

  /** An outline of two blocks parses to the readings of those blocks at positions 0
      and 1. */
  lemma ParseTwoBlocks(text: string, s1: ParsedSlide, s2: ParsedSlide)
    requires |Blocks(text)| == 2
    requires ParseBlock(Blocks(text)[0], 0) == s1 && ParseBlock(Blocks(text)[1], 1) == s2
    ensures Parse(text) == [s1, s2]
  {
    PairIs(Parse(text), s1, s2);
  }

  lemma StrictTwoBlocks(text: string)
    requires |Blocks(text)| == 2 && Titled(Blocks(text)[0]) && Titled(Blocks(text)[1])
    ensures ParseStrict(text) == Ok(Parse(text))
  {
    AllOfPair(Blocks(text), Titled);
  }

  /** The example outline gives two slides, "Intro" with bullets "Hello" and "World",
      and "Done" with none; the strict parser accepts it and agrees. */
  lemma WorkedExample()
    ensures Parse(Example) == [ParsedSlide("Intro", ["Hello", "World"]), ParsedSlide("Done", [])]
    ensures ParseStrict(Example) == Ok(Parse(Example))
  {
    ExampleBlocks();
    ExampleSlide1();
    ExampleTitled1();
    ExampleSlide2();
    ParseTwoBlocks(Example, ParsedSlide("Intro", ["Hello", "World"]), ParsedSlide("Done", []));
    StrictTwoBlocks(Example);
  }

  /** A stripped text made of non-empty lines without line breaks is one block, and
      its lines are those lines. */
  lemma SingleBlock(text: string, lines: seq<string>)
    requires |lines| >= 1
    requires forall i :: 0 <= i < |lines| ==> |lines[i]| > 0 && '\n' !in lines[i]
    requires text == Join(LineSep, lines) && !IsSpace(text[0]) && !IsSpace(text[|text| - 1])
    ensures Blocks(text) == [text] && Lines(text) == lines
  {
    StripOfTrimmed(text);
    OneBlock(lines);
  }

  lemma ParseOneBlock(text: string, s1: ParsedSlide)
    requires |Blocks(text)| == 1 && ParseBlock(Blocks(text)[0], 0) == s1
    ensures Parse(text) == [s1]
  {
    SingleIs(Parse(text), s1);
  }

  lemma SingleIs(r: seq<ParsedSlide>, s1: ParsedSlide)
    requires |r| == 1 && r[0] == s1
    ensures r == [s1]
  {
  }

  lemma JoinPair(x: string, y: string)
    ensures Join(LineSep, [x, y]) == x + LineSep + y
  {
    assert [x, y][1..] == [y];
  }

  lemma JoinTriple(x: string, y: string, z: string)
    ensures Join(LineSep, [x, y, z]) == x + LineSep + y + LineSep + z
  {
    assert [x, y, z][1..] == [y, z];
    JoinPair(y, z);
  }

  lemma FallbackTitles()
    ensures FallbackTitle(0) == "Slide 1" && FallbackTitle(1) == "Slide 2"
  {
    assert NatToDecimal(1) == "1" && NatToDecimal(2) == "2";
  }

  /** A one-line outline with neither a line break nor a colon is one untitled block. */
  lemma PlainWord(w: string, i: nat)
    requires |w| > 0 && '\n' !in w && ':' !in w && !IsSpace(w[0]) && !IsSpace(w[|w| - 1])
    ensures Blocks(w) == [w] && !Titled(w)
    ensures ParseBlock(w, i) == ParsedSlide(FallbackTitle(i), [])
  {
    SingleBlock(w, [w]);
    NoOccurrenceByChar(w, FieldSep);
    assert Bullets([w]) == [];
  }

  /** Two one-word outlines without titles, and the two joined by a blank line. */
  const X: string := "x"
  const Y: string := "y"
  const XY: string := X + BlockSep + Y

  lemma PlainX(i: nat)
    ensures Blocks(X) == [X] && Strip(X) == X
    ensures ParseBlock(X, i) == ParsedSlide(FallbackTitle(i), [])
  {
    PlainWord(X, i);
    StripOfTrimmed(X);
  }

  lemma PlainY(i: nat)
    ensures Blocks(Y) == [Y] && Strip(Y) == Y
    ensures ParseBlock(Y, i) == ParsedSlide(FallbackTitle(i), [])
  {
    PlainWord(Y, i);
    StripOfTrimmed(Y);
  }

  lemma TwoPlainWords()
    ensures Blocks(XY) == [X, Y]
  {
    PlainX(0);
    PlainY(0);
    ConcatBlocks(X, Y);
  }

  lemma JoinedFirst()
    ensures |Blocks(XY)| == 2 && ParseBlock(Blocks(XY)[0], 0) == ParsedSlide(FallbackTitle(0), [])
  {
    TwoPlainWords();
    PlainX(0);
  }

  lemma JoinedSecond()
    ensures |Blocks(XY)| == 2 && ParseBlock(Blocks(XY)[1], 1) == ParsedSlide(FallbackTitle(1), [])
  {
    TwoPlainWords();
    PlainY(1);
  }

  lemma JoinedPlainWords()
    ensures Parse(XY) == [ParsedSlide(FallbackTitle(0), []), ParsedSlide(FallbackTitle(1), [])]
  {
    JoinedFirst();
    JoinedSecond();
    ParseTwoBlocks(XY, ParsedSlide(FallbackTitle(0), []), ParsedSlide(FallbackTitle(1), []));
  }

  lemma SeparatePlainWords()
    ensures Parse(X) + Parse(Y) == [ParsedSlide(FallbackTitle(0), []), ParsedSlide(FallbackTitle(0), [])]
  {
    PlainX(0);
    PlainY(0);
    ParseOneBlock(X, ParsedSlide(FallbackTitle(0), []));
    ParseOneBlock(Y, ParsedSlide(FallbackTitle(0), []));
  }

  /** Without titles the concatenation law fails: the fallback titles are numbered by
      position, so parsing "x\n\ny" titles its second slide "Slide 2", where parsing
      "y" alone titles it "Slide 1". */
  lemma ConcatShiftsFallbacks()
    ensures FallbackTitle(0) == "Slide 1" && FallbackTitle(1) == "Slide 2"
    ensures Parse(XY) == [ParsedSlide(FallbackTitle(0), []), ParsedSlide(FallbackTitle(1), [])]
    ensures Parse(X) + Parse(Y) == [ParsedSlide(FallbackTitle(0), []), ParsedSlide(FallbackTitle(0), [])]
    ensures Parse(XY) != Parse(X) + Parse(Y)
  {
    JoinedPlainWords();
    SeparatePlainWords();
    FallbackTitles();
    var s0 := ParsedSlide(FallbackTitle(0), []);
    var s1 := ParsedSlide(FallbackTitle(1), []);
    assert [s0, s1] != [s0, s0] by { assert [s0, s1][1] != [s0, s0][1]; }
  }

  /** The outline "T: \nx". */
  const EmptyTitled: string := "T: " + LineSep + "x"

  lemma EmptyTitledShape()
    ensures Blocks(EmptyTitled) == [EmptyTitled] && Lines(EmptyTitled) == ["T: ", "x"]
  {
    JoinPair("T: ", "x");
    SingleBlock(EmptyTitled, ["T: ", "x"]);
  }

  lemma EmptyTitledFields()
    ensures AfterFirst("T: ", FieldSep) == Some("")
    ensures Bullet("x") == "x"
  {
    FieldAt("T: ", 1);
    NoOccurrenceByChar("x", FieldSep);
  }

  lemma EmptyTitledBlock()
    ensures ParseBlock(EmptyTitled, 0) == ParsedSlide("", ["x"]) && Titled(EmptyTitled)
  {
    EmptyTitledShape();
    EmptyTitledFields();
    assert Bullets(["T: ", "x"]) == ["x"];
  }

  /** A title line that ends right after `": "` yields an empty title, which both
      parsers accept. */
  lemma EmptyTitle()
    ensures Parse(EmptyTitled) == [ParsedSlide("", ["x"])]
    ensures ParseStrict(EmptyTitled) == Ok(Parse(EmptyTitled))
  {
    EmptyTitledShape();
    EmptyTitledBlock();
    ParseOneBlock(EmptyTitled, ParsedSlide("", ["x"]));
    assert All(Blocks(EmptyTitled), Titled);
  }

  /** The outline "T: a\n \nb": a whitespace-only line inside a block. */
  const SpacedBlock: string := "T: a" + LineSep + " " + LineSep + "b"

  lemma SpacedBlockShape()
    ensures Blocks(SpacedBlock) == [SpacedBlock] && Lines(SpacedBlock) == ["T: a", " ", "b"]
  {
    JoinTriple("T: a", " ", "b");
    SingleBlock(SpacedBlock, ["T: a", " ", "b"]);
  }

  lemma SpacedBlockFields()
    ensures AfterFirst("T: a", FieldSep) == Some("a")
    ensures Bullet(" ") == " " && Bullet("b") == "b"
  {
    FieldAt("T: a", 1);
    NoOccurrenceByChar(" ", FieldSep);
    NoOccurrenceByChar("b", FieldSep);
  }

  lemma SpacedBlockSlide()
    ensures ParseBlock(SpacedBlock, 0) == ParsedSlide("a", [" ", "b"])
  {
    SpacedBlockShape();
    SpacedBlockFields();
    assert Bullets(["T: a", " ", "b"]) == [" ", "b"];
  }

  /** A whitespace-only line inside a block is kept as a bullet of its own: only the
      block as a whole is stripped, never its inner lines. */
  lemma BlankLineKept()
    ensures Parse(SpacedBlock) == [ParsedSlide("a", [" ", "b"])]
  {
    SpacedBlockShape();
    SpacedBlockSlide();
    ParseOneBlock(SpacedBlock, ParsedSlide("a", [" ", "b"]));
  }
}
