/**
  The outline parser: generated outline text to an ordered list of slides, each a
  title and a list of bullet lines.

  Both variants cut the text into blocks with `text.strip().split("\n\n")`, each block
  into lines with `block.strip().split("\n")`, and turn every line after the first into
  a bullet: the text after its first `": "`, or the whole line. They differ on the
  title line. The tolerant parser of the batch job falls back to `"Slide {i+1}"` when
  the first line has no `": "`; the strict parser of the desktop and browser forms
  fails instead.
*/
module Outline {
  import opened Wrappers
  import opened PyStr
  import opened Decimal
  import opened Seqs

  const BlockSep: string := "\n\n"
  const LineSep: string := "\n"
  const FieldSep: string := ": "

  /** One slide as the parser sees it: its title and its bullet lines, in order. */
  datatype ParsedSlide = ParsedSlide(title: string, bullets: seq<string>)

  /** `text.strip().split("\n\n")`: the slide blocks of an outline. */
  function Blocks(text: string): seq<string> {
    Split(Strip(text), BlockSep)
  }

  /** `block.strip().split("\n")`: the lines of one block, title line first. */
  function Lines(block: string): seq<string> {
    Split(Strip(block), LineSep)
  }

  /** `r` is what follows the first `": "` of `line`. */
  predicate CutAfterFirst(line: string, r: string) {
    var k := |line| - |r| - |FieldSep|;
    && 0 <= k
    && line == line[..k] + FieldSep + r
    && forall j :: 0 <= j < k ==> !OccursAt(line, FieldSep, j)
  }

  /** `line.split(": ", 1)[1] if ": " in line else line`. */
  function Bullet(line: string): (r: string)
    ensures Contains(line, FieldSep) ==> CutAfterFirst(line, r)
    ensures !Contains(line, FieldSep) ==> r == line
  {
    AfterFirst(line, FieldSep).GetOr(line)
  }

  /** The bullets of a block: every line after the title line, each cut by `Bullet`. */
  function Bullets(lines: seq<string>): (r: seq<string>)
    requires |lines| >= 1
    ensures |r| == |lines| - 1
    ensures forall j :: 0 <= j < |r| ==> r[j] == Bullet(lines[j + 1])
  {
    seq(|lines| - 1, j requires 0 <= j < |lines| - 1 => Bullet(lines[j + 1]))
  }

  /** The placeholder title of the block at 0-based position `i`: `f"Slide {i+1}"`. */
  function FallbackTitle(i: nat): string {
    "Slide " + NatToDecimal(i + 1)
  }

  /** The title line carries a title: it holds `": "`. */
  predicate Titled(block: string) {
    Contains(Lines(block)[0], FieldSep)
  }

  /** The tolerant reading of the block at 0-based position `i`: the title is what
      follows the first `": "` of the title line, or `"Slide {i+1}"` when it has
      none; the bullets are the remaining lines, each cut by `Bullet`. */
  function ParseBlock(block: string, i: nat): (s: ParsedSlide)
    ensures Contains(Lines(block)[0], FieldSep) ==> CutAfterFirst(Lines(block)[0], s.title)
    ensures !Contains(Lines(block)[0], FieldSep) ==> s.title == FallbackTitle(i)
    ensures s.bullets == Bullets(Lines(block))
  {
    var lines := Lines(block);
    ParsedSlide(Title(lines[0], i), Bullets(lines))
  }

  /** The title of the block at position `i` whose title line is `line`. */
  function Title(line: string, i: nat): (r: string)
    ensures Contains(line, FieldSep) ==> CutAfterFirst(line, r)
    ensures !Contains(line, FieldSep) ==> r == FallbackTitle(i)
  {
    AfterFirst(line, FieldSep).GetOr(FallbackTitle(i))
  }

  /** The tolerant reading of a list of blocks, the first at position 0. */
  function ParseBlocks(blocks: seq<string>): (r: seq<ParsedSlide>)
    ensures |r| == |blocks|
    ensures forall i :: 0 <= i < |blocks| ==> r[i] == ParseBlock(blocks[i], i)
  {
    MapIndexed(blocks, ParseBlock)
  }

  /** The tolerant parser of the batch job. It never fails and never drops a block:
      one slide per block of `text.strip().split("\n\n")`, in block order, the block
      at position `i` read by `ParseBlock(_, i)`. */
  function Parse(text: string): (r: seq<ParsedSlide>)
    ensures |r| == |Blocks(text)| >= 1
    ensures forall i :: 0 <= i < |r| ==> r[i] == ParseBlock(Blocks(text)[i], i)
  {
    ParseBlocks(Blocks(text))
  }

  /** Why a strict parse fails: the title line of this block has no `": "`. */
  datatype ParseError = MissingTitleSeparator(block: nat)

  /** The strict reading of one block: None where Python raises IndexError. When it
      succeeds it agrees with the tolerant reading at any position. */
  function StrictBlock(block: string): (r: Option<ParsedSlide>)
    ensures r.Some? <==> Titled(block)
    ensures forall i: nat :: r.Some? ==> r.value == ParseBlock(block, i)
  {
    var lines := Lines(block);
    match AfterFirst(lines[0], FieldSep)
    case None => None
    case Some(title) => Some(ParsedSlide(title, Bullets(lines)))
  }

  /** The strict reading of every block, each on its own. */
  function Candidates(blocks: seq<string>): (r: seq<Option<ParsedSlide>>)
    ensures |r| == |blocks|
    ensures forall i :: 0 <= i < |blocks| ==> r[i] == StrictBlock(blocks[i])
  {
    seq(|blocks|, i requires 0 <= i < |blocks| => StrictBlock(blocks[i]))
  }

  /** The strict parser of the desktop and browser forms (`lines[0].split(": ", 1)[1]`
      with no fallback). It succeeds exactly when every block's title line holds
      `": "`, and then agrees slide for slide with the tolerant parser; otherwise it
      reports the first block whose title line does not, where Python raises. */
  function ParseStrict(text: string): (r: Result<seq<ParsedSlide>, ParseError>)
    ensures r.Ok? <==> All(Blocks(text), Titled)
    ensures r.Ok? ==> r.value == Parse(text)
    ensures r.Err? ==> r.error.block < |Blocks(text)| && !Titled(Blocks(text)[r.error.block])
                       && forall j :: 0 <= j < r.error.block ==> Titled(Blocks(text)[j])
  {
    var blocks := Blocks(text);
    StrictOkIff(blocks);
    StrictOkAgrees(blocks);
    StrictErrFirst(blocks);
    match AllPresent(Candidates(blocks))
    case Err(k) => Err(MissingTitleSeparator(k))
    case Ok(slides) => Ok(slides)
  }

  lemma StrictOkIff(blocks: seq<string>)
    ensures AllPresent(Candidates(blocks)).Ok? <==> All(blocks, Titled)
  {
    var c := Candidates(blocks);
    assert forall i :: 0 <= i < |blocks| ==> (c[i].Some? <==> Titled(blocks[i]));
  }

  lemma StrictOkAgrees(blocks: seq<string>)
    ensures AllPresent(Candidates(blocks)).Ok? ==> AllPresent(Candidates(blocks)).value == ParseBlocks(blocks)
  {
    var c := Candidates(blocks);
    var r := AllPresent(c);
    if r.Ok? {
      var p := ParseBlocks(blocks);
      forall i | 0 <= i < |blocks| ensures r.value[i] == p[i] {
        assert r.value[i] == c[i].value;
      }
    }
  }

  lemma StrictErrFirst(blocks: seq<string>)
    ensures var r := AllPresent(Candidates(blocks));
      r.Err? ==> r.error < |blocks| && !Titled(blocks[r.error])
                 && forall j :: 0 <= j < r.error ==> Titled(blocks[j])
  {
    var c := Candidates(blocks);
    var r := AllPresent(c);
    if r.Err? {
      assert c[r.error].None?;
      forall j | 0 <= j < r.error ensures Titled(blocks[j]) {
        assert c[j].Some?;
      }
    }
  }

  /** `'\n'.join(bullets)`: the text put in the content placeholder by the strict forms. */
  function ContentText(slide: ParsedSlide): string {
    Join(LineSep, slide.bullets)
  }
}
