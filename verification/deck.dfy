/**
  Deck assembly and output paths.

  A deck is the ordered list of slide records built from the parsed outline: each
  record keeps the slide's title and bullets and, when the image service delivered
  one, a picture. The slide geometry, fonts and layouts of python-pptx are not part
  of this model; saving is a path and nothing more.
*/
module Deck {
  import opened Wrappers
  import opened PyStr
  import opened Clock
  import opened Outline

  /** The bytes of a downloaded picture. */
  type Image = seq<bv8>

  /** The image service, one call per slide: for the slide at 0-based position `i` asked
      with `prompt`, the picture that ends up on that slide, or None where the request
      or the download raises. In the desktop and browser forms the per-slide handler
      also covers `add_picture`, so there None also stands for an insertion that
      raises. Each call can fail on its own, even when two slides share a prompt. */
  type ImageOracle = (nat, string) -> Option<Image>

  /** One slide of a built deck. */
  datatype SlideRecord = SlideRecord(title: string, bullets: seq<string>, image: Option<Image>)

  /** The text of a slide record, without its picture. */
  function Forget(r: SlideRecord): ParsedSlide {
    ParsedSlide(r.title, r.bullets)
  }

  function ForgetAll(rs: seq<SlideRecord>): (r: seq<ParsedSlide>)
    ensures |r| == |rs|
    ensures forall i :: 0 <= i < |rs| ==> r[i] == Forget(rs[i])
  {
    seq(|rs|, i requires 0 <= i < |rs| => Forget(rs[i]))
  }

  /** `f"{title} - {topic}"`: what the batch job asks the image service for. */
  function TolerantPrompt(title: string, topic: string): string {
    title + " - " + topic
  }

  /** `f"{title}, {bullets[0]}"`: what the desktop and browser forms ask for. A slide
      without bullets raises IndexError before the request is made, and the per-slide
      handler skips the picture. */
  function StrictPrompt(s: ParsedSlide): (r: Option<string>)
    ensures r.Some? <==> |s.bullets| > 0
  {
    if |s.bullets| == 0 then None else Some(s.title + ", " + s.bullets[0])
  }

  /** The batch job's slide: the picture the service returns for the slide's prompt,
      if any (`if img_stream:` adds it). */
  function AttachTolerant(s: ParsedSlide, i: nat, topic: string, gen: ImageOracle): SlideRecord {
    SlideRecord(s.title, s.bullets, gen(i, TolerantPrompt(s.title, topic)))
  }

  /** The desktop and browser forms' slide: a picture only when there is a first bullet
      to build the prompt from and the service delivers. */
  function AttachStrict(s: ParsedSlide, i: nat, gen: ImageOracle): SlideRecord {
    var image := match StrictPrompt(s) case None => None case Some(p) => gen(i, p);
    SlideRecord(s.title, s.bullets, image)
  }

  /** The batch job's deck (`parse_and_create_ppt` of the Airtable scheduler): one record
      per block of the outline, in block order, carrying the tolerant parse of that
      block and whatever picture the service returned for it. */
  function TolerantDeck(text: string, topic: string, gen: ImageOracle): (r: seq<SlideRecord>)
    ensures |r| == |Blocks(text)|
    ensures forall i :: 0 <= i < |r| ==> Forget(r[i]) == Parse(text)[i]
    ensures forall i :: 0 <= i < |r| ==> r[i].image == gen(i, TolerantPrompt(Parse(text)[i].title, topic))
  {
    var slides := Parse(text);
    seq(|slides|, i requires 0 <= i < |slides| => AttachTolerant(slides[i], i, topic, gen))
  }

  /** The desktop and browser forms' records for already parsed slides. */
  function AttachAllStrict(slides: seq<ParsedSlide>, gen: ImageOracle): (r: seq<SlideRecord>)
    ensures |r| == |slides|
    ensures forall i :: 0 <= i < |r| ==> r[i] == AttachStrict(slides[i], i, gen)
  {
    seq(|slides|, i requires 0 <= i < |slides| => AttachStrict(slides[i], i, gen))
  }

  /** A strict record keeps its slide's text, and holds a picture only when the slide
      has a first bullet to build the prompt from and the service delivered for it. */
  predicate StrictRecordOf(r: SlideRecord, s: ParsedSlide, i: nat, gen: ImageOracle) {
    && Forget(r) == s
    && r.image == (if |s.bullets| == 0 then None else gen(i, s.title + ", " + s.bullets[0]))
  }

  lemma AttachStrictIs(s: ParsedSlide, i: nat, gen: ImageOracle)
    ensures StrictRecordOf(AttachStrict(s, i, gen), s, i, gen)
  {
  }

  /** The desktop and browser forms' deck: fails exactly where the strict parser fails,
      with the same error; otherwise one record per block, in order, each the record of
      the tolerant parse of its block. */
  function StrictDeck(text: string, gen: ImageOracle): (r: Result<seq<SlideRecord>, ParseError>)
    ensures r.Ok? <==> ParseStrict(text).Ok?
    ensures r.Err? ==> r.error == ParseStrict(text).error
    ensures r.Ok? ==> |r.value| == |Blocks(text)|
    ensures r.Ok? ==> forall i :: 0 <= i < |r.value| ==> StrictRecordOf(r.value[i], Parse(text)[i], i, gen)
  {
    match ParseStrict(text)
    case Err(e) => Err(e)
    case Ok(slides) =>
      var r := AttachAllStrict(slides, gen);
      StrictDeckRecords(slides, r, gen);
      Ok(r)
  }

  lemma StrictDeckRecords(slides: seq<ParsedSlide>, r: seq<SlideRecord>, gen: ImageOracle)
    requires r == AttachAllStrict(slides, gen)
    ensures forall i :: 0 <= i < |r| ==> StrictRecordOf(r[i], slides[i], i, gen)
  {
    forall i | 0 <= i < |r| ensures StrictRecordOf(r[i], slides[i], i, gen) {
      AttachStrictIs(slides[i], i, gen);
    }
  }

  /** Pictures never add, drop or reorder slides: whatever the image service does, the
      batch deck's text is exactly the parsed outline. */
  lemma TolerantImagesIrrelevant(text: string, topic: string, g1: ImageOracle, g2: ImageOracle)
    ensures ForgetAll(TolerantDeck(text, topic, g1)) == Parse(text)
    ensures ForgetAll(TolerantDeck(text, topic, g1)) == ForgetAll(TolerantDeck(text, topic, g2))
  {
  }

  /** The same for the desktop and browser forms: the image service decides neither
      whether the deck is built nor what text it holds. */
  lemma StrictImagesIrrelevant(text: string, g1: ImageOracle, g2: ImageOracle)
    ensures StrictDeck(text, g1).Ok? <==> StrictDeck(text, g2).Ok?
    ensures StrictDeck(text, g1).Ok? ==> ForgetAll(StrictDeck(text, g1).value) == Parse(text)
  {
    var p := ParseStrict(text);
    if p.Ok? {
      var d := StrictDeck(text, g1);
      assert d.value == AttachAllStrict(p.value, g1);
      ForgetAttached(p.value, g1);
    }
  }

  /** Attaching pictures keeps every slide's text. */
  lemma ForgetAttached(slides: seq<ParsedSlide>, gen: ImageOracle)
    ensures ForgetAll(AttachAllStrict(slides, gen)) == slides
  {
    var f := ForgetAll(AttachAllStrict(slides, gen));
    forall i | 0 <= i < |slides| ensures f[i] == slides[i] {
      AttachStrictIs(slides[i], i, gen);
    }
  }

  /** With a service that always fails, the batch deck still has every slide, none with
      a picture. */
  lemma TolerantDeckWithoutImages(text: string, topic: string)
    ensures var r := TolerantDeck(text, topic, (_, _) => None);
      |r| == |Blocks(text)| && forall i :: 0 <= i < |r| ==> r[i].image.None?
  {
  }

  // ----- output file names -----------------------------------------------------------

  const DeckFolder: string := "slides"
  const GuiFolder: string := "gui_presentations"
  const Extension: string := ".pptx"

  /** `topic[:n].replace(' ', '_')`: at most `n` characters, the topic's own except that
      spaces become underscores. */
  function SafePrefix(topic: string, n: nat): (r: string)
    ensures |r| == if |topic| < n then |topic| else n
    ensures ' ' !in r
    ensures forall i :: 0 <= i < |r| ==> r[i] == (if topic[i] == ' ' then '_' else topic[i])
  {
    ReplaceChar(Take(topic, n), ' ', '_')
  }

  /** `f"{topic[:40].replace(' ', '_')}_{now.strftime('%Y%m%d_%H%M%S')}.pptx"`, the
      file name of the batch job and of the browser form. */
  function TimestampedName(topic: string, now: Instant): string {
    SafePrefix(topic, 40) + "_" + Stamp(now) + Extension
  }

  /** Reads a timestamped name back into its topic prefix and its timestamp. */
  function NameParts(name: string): (r: Option<(string, DateTime)>)
    ensures r.Some? ==> EndsWith(name, Extension)
  {
    if |name| < 21 || name[|name| - 21] != '_' || name[|name| - 5..] != Extension then None
    else match ParseStamp(name[|name| - 20..|name| - 5])
      case None => None
      case Some(t) => Some((name[..|name| - 21], t))
  }

  /** The timestamped name is the prefix, an underscore, the 15-character stamp and the
      extension; reading it back gives the topic prefix and the instant. */
  lemma TimestampedNameRoundTrip(topic: string, now: Instant)
    ensures |TimestampedName(topic, now)| == |SafePrefix(topic, 40)| + 21
    ensures NameParts(TimestampedName(topic, now)) == Some((SafePrefix(topic, 40), now))
  {
    var p, st := SafePrefix(topic, 40), Stamp(now);
    var name := TimestampedName(topic, now);
    assert name[|name| - 21] == '_';
    assert name[|name| - 5..] == Extension;
    assert name[|name| - 20..|name| - 5] == st;
    assert name[..|name| - 21] == p;
    StampRoundTrip(now);
  }

  /** Two runs on topics with the same prefix land on the same name only within the same
      second; different prefixes never share a name. */
  lemma TimestampedNameInjective(t1: string, t2: string, n1: Instant, n2: Instant)
    requires TimestampedName(t1, n1) == TimestampedName(t2, n2)
    ensures SafePrefix(t1, 40) == SafePrefix(t2, 40) && n1 == n2
  {
    TimestampedNameRoundTrip(t1, n1);
    TimestampedNameRoundTrip(t2, n2);
  }

  /** `os.path.join(a, b)` on POSIX: an absolute `b` replaces `a`; otherwise the two are
      joined with one slash, none added after a trailing slash or an empty `a`. */
  function PathJoin(a: string, b: string): string {
    if StartsWith(b, "/") then b
    else if a == [] || a[|a| - 1] == '/' then a + b
    else a + "/" + b
  }

  /** `os.path.basename(p)`: what follows the last slash, or all of `p`. */
  function Basename(p: string): (r: string)
    ensures '/' !in r
    ensures |r| <= |p| && r == p[|p| - |r|..]
    ensures |r| == |p| || p[|p| - |r| - 1] == '/'
    decreases |p|
  {
    if p == [] then []
    else if p[|p| - 1] == '/' then []
    else
      var r := Basename(p[..|p| - 1]) + [p[|p| - 1]];
      assert p[..|p| - 1][|p| - |r|..] + [p[|p| - 1]] == p[|p| - |r|..];
      r
  }

  /** The base name is the slash-free tail that starts the string or follows a slash. */
  lemma BasenameIs(p: string, k: nat)
    requires k <= |p| && '/' !in p[k..] && (k == 0 || p[k - 1] == '/')
    ensures Basename(p) == p[k..]
  {
    var r := Basename(p);
    assert |r| == |p| - k;
  }

  /** A name without slashes is its own base name. */
  lemma BasenameOfName(name: string)
    requires '/' !in name
    ensures Basename(name) == name
  {
    BasenameIs(name, 0);
  }

  /** Joining a folder and a name without slashes, the name is the base name again. */
  lemma BasenameOfJoin(folder: string, name: string)
    requires '/' !in name && name != []
    ensures Basename(PathJoin(folder, name)) == name
  {
    var p := PathJoin(folder, name);
    assert name[0] in name;
    if folder == [] {
      assert p == name;
      BasenameOfName(name);
    } else if folder[|folder| - 1] == '/' {
      assert p == folder + name;
      assert p[|folder|..] == name;
      BasenameIs(p, |folder|);
    } else {
      assert p == folder + "/" + name;
      assert p[|folder| + 1..] == name;
      BasenameIs(p, |folder| + 1);
    }
  }

  /** Where the batch job saves a deck: `os.path.join("slides", filename)`. */
  function DeckPath(topic: string, now: Instant): string {
    PathJoin(DeckFolder, TimestampedName(topic, now))
  }

  /** The deck lands inside the slides folder exactly when the topic does not start with
      a slash; a topic that does makes the name an absolute path, which replaces the
      folder. */
  lemma DeckPathInFolder(topic: string, now: Instant)
    ensures !StartsWith(topic, "/") ==> DeckPath(topic, now) == DeckFolder + "/" + TimestampedName(topic, now)
    ensures StartsWith(topic, "/") ==> DeckPath(topic, now) == TimestampedName(topic, now)
    ensures StartsWith(DeckPath(topic, now), DeckFolder + "/") <==> !StartsWith(topic, "/")
  {
    var name := TimestampedName(topic, now);
    var p := SafePrefix(topic, 40);
    assert name[0] == (if topic == [] then '_' else p[0]);
    if topic != [] {
      assert StartsWith(name, "/") <==> StartsWith(topic, "/");
    }
    var path := DeckPath(topic, now);
    if StartsWith(topic, "/") {
      assert path[0] == '/';
      assert !StartsWith(path, DeckFolder + "/") by { assert (DeckFolder + "/")[0] == 's'; }
    } else {
      assert path == DeckFolder + "/" + name;
      assert path[..|DeckFolder + "/"|] == DeckFolder + "/";
    }
  }

  /** The timestamped name holds a slash only where the topic prefix does: the stamp and
      the extension hold none. */
  lemma TimestampedNameNoSlash(topic: string, now: Instant)
    requires '/' !in SafePrefix(topic, 40)
    ensures '/' !in TimestampedName(topic, now)
  {
    var name := TimestampedName(topic, now);
    var p := SafePrefix(topic, 40);
    forall i | 0 <= i < |name| ensures name[i] != '/' {
      if i < |p| {
        assert name[i] == p[i];
      } else if i == |p| {
      } else if i < |p| + 16 {
        var st := Stamp(now);
        var j := i - |p| - 1;
        assert name[i] == st[j];
        if j < 8 { assert st[..8][j] == st[j]; } else if j > 8 { assert st[9..][j - 9] == st[j]; }
      } else {
        assert name[i] == Extension[i - |p| - 16];
      }
    }
  }

  /** The attachment name of the e-mail, `os.path.basename(path)`, is the timestamped
      name when the topic prefix holds no slash. */
  lemma DeckAttachmentName(topic: string, now: Instant)
    requires '/' !in SafePrefix(topic, 40)
    ensures Basename(DeckPath(topic, now)) == TimestampedName(topic, now)
  {
    TimestampedNameNoSlash(topic, now);
    BasenameOfJoin(DeckFolder, TimestampedName(topic, now));
  }

  /** Where the desktop form saves a deck:
      `os.path.join("gui_presentations", f"{topic[:50].replace(' ', '_')}.pptx")`. */
  function GuiPath(topic: string): string {
    PathJoin(GuiFolder, SafePrefix(topic, 50) + Extension)
  }

  /** The desktop deck's path begins with `gui_presentations/` exactly when the topic
      does not start with a slash; when the 50-character prefix holds no slash, the
      file's base name is that prefix with the extension. */
  lemma GuiPathInFolder(topic: string)
    ensures StartsWith(GuiPath(topic), GuiFolder + "/") <==> !StartsWith(topic, "/")
    ensures '/' !in SafePrefix(topic, 50) ==> Basename(GuiPath(topic)) == SafePrefix(topic, 50) + Extension
  {
    var p := SafePrefix(topic, 50);
    var name := p + Extension;
    var path := GuiPath(topic);
    assert name[0] == (if topic == [] then '.' else p[0]);
    if StartsWith(topic, "/") {
      assert path == name && path[0] == '/';
      assert !StartsWith(path, GuiFolder + "/") by { assert (GuiFolder + "/")[0] == 'g'; }
    } else {
      assert !StartsWith(name, "/");
      assert path == GuiFolder + "/" + name;
      assert path[..|GuiFolder + "/"|] == GuiFolder + "/";
    }
    if '/' !in p {
      assert '/' !in name by {
        forall i | 0 <= i < |name| ensures name[i] != '/' {
          if i >= |p| { assert name[i] == Extension[i - |p|]; }
        }
      }
      BasenameOfJoin(GuiFolder, name);
    }
  }

  /** The desktop form's path has no timestamp: two topics share a path exactly when
      their 50-character prefixes agree once spaces become underscores, so a later run
      overwrites an earlier one. */
  lemma GuiPathCollision(t1: string, t2: string)
    ensures GuiPath(t1) == GuiPath(t2) <==> SafePrefix(t1, 50) == SafePrefix(t2, 50)
  {
    var b1, b2 := SafePrefix(t1, 50) + Extension, SafePrefix(t2, 50) + Extension;
    if GuiPath(t1) == GuiPath(t2) {
      assert b1 == b2 by {
        if !StartsWith(b1, "/") {
          assert GuiPath(t1)[|GuiFolder| + 1..] == b1;
          assert GuiPath(t2)[|GuiFolder| + 1..] == b2;
        }
      }
      assert SafePrefix(t1, 50) == b1[..|b1| - |Extension|];
      assert SafePrefix(t2, 50) == b2[..|b2| - |Extension|];
    }
  }

  const SpacedTopic: string := "a b"
  const UnderscoredTopic: string := "a_b"

  /** Two different topics, "a b" and "a_b", are saved to the same desktop path. */
  lemma DistinctTopicsSharePath()
    ensures SpacedTopic != UnderscoredTopic
    ensures GuiPath(SpacedTopic) == GuiPath(UnderscoredTopic)
  {
    assert SpacedTopic[1] != UnderscoredTopic[1];
    assert SafePrefix(SpacedTopic, 50) == SafePrefix(UnderscoredTopic, 50);
    GuiPathCollision(SpacedTopic, UnderscoredTopic);
  }

  /** Where the browser form saves a deck: the bare timestamped name, relative to the
      working directory. */
  function BrowserPath(topic: string, now: Instant): string {
    TimestampedName(topic, now)
  }

  /** The browser form offers the saved file under its base name: the whole name when
      the topic prefix holds no slash, only what follows the last slash otherwise. */
  lemma BrowserDownloadName(topic: string, now: Instant)
    ensures '/' !in SafePrefix(topic, 40) ==> Basename(BrowserPath(topic, now)) == BrowserPath(topic, now)
    ensures '/' in SafePrefix(topic, 40) ==> |Basename(BrowserPath(topic, now))| < |BrowserPath(topic, now)|
  {
    var name := TimestampedName(topic, now);
    var p := SafePrefix(topic, 40);
    if '/' !in p {
      TimestampedNameNoSlash(topic, now);
      BasenameOfName(name);
    } else {
      var i :| 0 <= i < |p| && p[i] == '/';
      assert name[i] == '/';
    }
  }
}
