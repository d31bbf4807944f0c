/**
  The two interactive front ends around the strict parser.

  The desktop form (tkinter) generates one deck from a typed topic, or one per topic of
  an uploaded `.txt` or `.csv` list, and saves each at its fixed path under
  `gui_presentations`. The browser form (Streamlit) generates one deck from a typed
  topic, saves it under its timestamped name and offers it for download.

  Widgets, threads, dialogs and the file system are not modelled: what the user typed
  or picked, what the files hold and whether saving goes through are inputs.
*/
module Frontends {
  import opened Wrappers
  import opened PyStr
  import opened Clock
  import opened Outline
  import opened Deck
  import opened Seqs

  // ----- the `.txt` topic list ---------------------------------------------------------

  /** Reading a file in text mode: every `"\r\n"` and every lone `"\r"` becomes `"\n"`
      (universal newlines). The text read holds no carriage return and is no longer
      than the file. */
  function Newlines(s: string): (r: string)
    ensures '\r' !in r
    ensures |r| <= |s|
    decreases |s|
  {
    if s == [] then []
    else if s[0] == '\r' then LineSep + Newlines(if |s| > 1 && s[1] == '\n' then s[2..] else s[1..])
    else [s[0]] + Newlines(s[1..])
  }

  /** Text without carriage returns reads back unchanged. */
  lemma {:induction false} NewlinesPlain(s: string)
    requires '\r' !in s
    ensures Newlines(s) == s
    decreases |s|
  {
    if s != [] {
      assert s[0] in s;
      assert forall c :: c in s[1..] ==> c in s;
      NewlinesPlain(s[1..]);
      assert s == [s[0]] + s[1..];
    }
  }

  /** Text without carriage returns in front of the rest is read as it is. */
  lemma {:induction false} NewlinesPlainPrefix(x: string, y: string)
    requires '\r' !in x
    ensures Newlines(x + y) == x + Newlines(y)
    decreases |x|
  {
    if x == [] {
      assert x + y == y;
    } else {
      assert x[0] in x;
      assert forall c :: c in x[1..] ==> c in x;
      assert (x + y)[0] == x[0];
      assert (x + y)[1..] == x[1..] + y;
      NewlinesPlainPrefix(x[1..], y);
      assert [x[0]] + x[1..] == x;
    }
  }

  /** A line ending, `"\r\n"` or a lone `"\r"`, reads as one `"\n"`. */
  lemma NewlinesLineEnd(sep: string, rest: string)
    requires sep == "\r\n" || (sep == "\r" && (rest == [] || rest[0] != '\n'))
    ensures Newlines(sep + rest) == LineSep + Newlines(rest)
  {
    assert (sep + rest)[0] == '\r';
    assert (sep + rest)[|sep|..] == rest;
  }

  /** A join whose parts after the first do not begin with a line feed does not begin
      with one either, when the separator does not. */
  lemma JoinNoLeadingFeed(sep: string, parts: seq<string>)
    requires sep == "\r"
    requires forall i :: 0 <= i < |parts| ==> parts[i] == [] || parts[i][0] != '\n'
    ensures Join(sep, parts) == [] || Join(sep, parts)[0] != '\n'
  {
    if |parts| > 1 {
      JoinCons(sep, parts[0], parts[1..]);
      assert [parts[0]] + parts[1..] == parts;
    }
  }

  /** Lines ended by `"\r\n"`, or by a lone `"\r"` not followed by a line feed, read
      as lines ended by `"\n"`. */
  lemma {:induction false} NewlinesJoin(sep: string, parts: seq<string>)
    requires sep == "\r\n" || sep == "\r"
    requires forall i :: 0 <= i < |parts| ==> '\r' !in parts[i]
    requires sep == "\r" ==> forall i :: 0 < i < |parts| ==> parts[i] == [] || parts[i][0] != '\n'
    ensures Newlines(Join(sep, parts)) == Join(LineSep, parts)
    decreases |parts|
  {
    if |parts| == 1 {
      NewlinesPlain(parts[0]);
    } else if |parts| > 1 {
      var head, tail := parts[0], parts[1..];
      assert '\r' !in head;
      assert forall i :: 0 <= i < |tail| ==> tail[i] == parts[i + 1];
      var rest := Join(sep, tail);
      NewlinesJoin(sep, tail);
      if sep == "\r" {
        JoinNoLeadingFeed(sep, tail);
      }
      assert [head] + tail == parts;
      JoinCons(sep, head, tail);
      JoinCons(LineSep, head, tail);
      NewlinesAfterLine(head, sep, rest);
      assert Join(sep, parts) == head + sep + rest;
      assert Join(LineSep, parts) == head + LineSep + Join(LineSep, tail);
    }
  }

  /** A line without carriage returns, its ending and the rest read as the line, one
      `"\n"` and the rest read. */
  lemma NewlinesAfterLine(head: string, sep: string, rest: string)
    requires '\r' !in head
    requires sep == "\r\n" || (sep == "\r" && (rest == [] || rest[0] != '\n'))
    ensures Newlines(head + sep + rest) == head + LineSep + Newlines(rest)
  {
    assert head + sep + rest == head + (sep + rest);
    NewlinesPlainPrefix(head, sep + rest);
    NewlinesLineEnd(sep, rest);
  }

  /** One line of the file: its stripped form, or None when that is empty. */
  function CleanLine(line: string): (r: Option<string>)
    ensures r.Some? <==> !AllSpace(line)
    ensures r.Some? ==> r.value == Strip(line)
  {
    var t := Strip(line);
    if t == [] then None else Some(t)
  }

  /** A topic is clean when it is non-empty and has no whitespace at either end. */
  predicate Clean(t: string) {
    t != [] && Strip(t) == t
  }

  /** `[line.strip() for line in f if line.strip()]` over the lines of a file, their
      terminators removed (stripping removes them anyway): every line stripped, the
      blank and whitespace-only ones dropped, the rest in order. */
  function CleanLines(lines: seq<string>): seq<string> {
    FilterMap(lines, CleanLine)
  }

  /** The topics of an uploaded `.txt` file with contents `content`. */
  function TxtTopics(content: string): seq<string> {
    CleanLines(Split(Newlines(content), LineSep))
  }

  /** Every topic of an uploaded `.txt` file is non-empty and has no whitespace at
      either end. */
  lemma TxtTopicsClean(content: string)
    ensures All(TxtTopics(content), Clean)
  {
    CleanLinesAreClean(Split(Newlines(content), LineSep));
  }

  /** A topic is kept exactly when it is the stripped form of some line and not empty. */
  lemma CleanLinesMembership(lines: seq<string>, t: string)
    ensures t in CleanLines(lines) <==>
      t != [] && exists i :: 0 <= i < |lines| && Strip(lines[i]) == t
  {
    FilterMapMembership(lines, CleanLine, t);
    if t != [] && exists i :: 0 <= i < |lines| && Strip(lines[i]) == t {
      var i :| 0 <= i < |lines| && Strip(lines[i]) == t;
      assert CleanLine(lines[i]) == Some(t);
    }
  }

  /** Every kept topic is clean. */
  lemma CleanLinesAreClean(lines: seq<string>)
    ensures forall j :: 0 <= j < |CleanLines(lines)| ==> Clean(CleanLines(lines)[j])
  {
    var r := CleanLines(lines);
    forall j | 0 <= j < |r| ensures Clean(r[j]) {
      FilterMapMembership(lines, CleanLine, r[j]);
      var i :| 0 <= i < |lines| && CleanLine(lines[i]) == Some(r[j]);
      StripIdempotent(lines[i]);
    }
  }

  /** Cleaning works line by line: the topics of two pieces of a file are the topics of
      the first followed by those of the second. */
  lemma CleanLinesAppend(xs: seq<string>, ys: seq<string>)
    ensures CleanLines(xs + ys) == CleanLines(xs) + CleanLines(ys)
  {
    FilterMapAppend(xs, ys, CleanLine);
  }

  /** Clean lines are kept as they are. */
  lemma CleanLinesKeepsClean(lines: seq<string>)
    requires forall j :: 0 <= j < |lines| ==> Clean(lines[j])
    ensures CleanLines(lines) == lines
  {
    forall j | 0 <= j < |lines| ensures CleanLine(lines[j]) == Some(lines[j]) {
      assert Clean(lines[j]);
    }
    FilterMapFixed(lines, CleanLine);
  }

  /** Cleaning twice is cleaning once. */
  lemma CleanLinesIdempotent(lines: seq<string>)
    ensures CleanLines(CleanLines(lines)) == CleanLines(lines)
  {
    CleanLinesAreClean(lines);
    CleanLinesKeepsClean(CleanLines(lines));
  }

  /** Writing clean topics one per line and uploading the file gives the topics back. */
  lemma TxtRoundTrip(topics: seq<string>)
    requires forall j :: 0 <= j < |topics| ==> Clean(topics[j]) && '\n' !in topics[j] && '\r' !in topics[j]
    ensures TxtTopics(Join(LineSep, topics)) == topics
  {
    if topics == [] {
      assert Join(LineSep, topics) == [];
      TxtEmpty();
    } else {
      TxtLines(topics);
      CleanLinesKeepsClean(topics);
      assert TxtTopics(Join(LineSep, topics)) == CleanLines(topics);
    }
  }

  /** A file written with Windows (`"\r\n"`) or classic Mac (`"\r"`) line endings gives
      the same topics back as one written with `"\n"`. */
  lemma TxtLineEndings(sep: string, topics: seq<string>)
    requires sep == "\r\n" || sep == "\r"
    requires forall j :: 0 <= j < |topics| ==> Clean(topics[j]) && '\n' !in topics[j] && '\r' !in topics[j]
    ensures TxtTopics(Join(sep, topics)) == topics
  {
    forall i | 0 < i < |topics| ensures topics[i] == [] || topics[i][0] != '\n' {
      if topics[i] != [] {
        assert topics[i][0] in topics[i];
      }
    }
    NewlinesJoin(sep, topics);
    var unix := Join(LineSep, topics);
    JoinAvoids(topics, '\n', '\r');
    NewlinesPlain(unix);
    assert TxtTopics(Join(sep, topics)) == TxtTopics(unix);
    TxtRoundTrip(topics);
  }

  /** Topics without line breaks, written one per line, are the lines read back. */
  lemma TxtLines(topics: seq<string>)
    requires |topics| >= 1
    requires forall j :: 0 <= j < |topics| ==> '\n' !in topics[j] && '\r' !in topics[j]
    ensures TxtTopics(Join(LineSep, topics)) == CleanLines(topics)
  {
    var content := Join(LineSep, topics);
    JoinAvoids(topics, '\n', '\r');
    TxtTopicsPlain(content);
    SplitJoin(topics, '\n');
  }

  /** An empty file lists no topic. */
  lemma TxtEmpty()
    ensures TxtTopics([]) == []
  {
    var empty: string := [];
    assert Newlines(empty) == empty;
    SplitEmpty();
    BlankLineDropped();
    assert [empty][..0] == [];
    assert CleanLines([empty]) == [];
  }

  /** Splitting the empty text gives one empty line. */
  lemma SplitEmpty()
    ensures Split([], LineSep) == [[]]
  {
    assert Find([], LineSep).None?;
  }

  /** An empty line yields no topic. */
  lemma BlankLineDropped()
    ensures CleanLine([]) == None
  {
    assert AllSpace([]);
  }

  /** A file without carriage returns is cut at its line breaks as it is. */
  lemma TxtTopicsPlain(content: string)
    requires '\r' !in content
    ensures TxtTopics(content) == CleanLines(Split(content, LineSep))
  {
    NewlinesPlain(content);
  }

  // ----- the `.csv` topic list ---------------------------------------------------------

  /** One column of a table read by pandas: a value per row, None where the cell is
      missing (NaN). */
  type Column = seq<Option<string>>

  /** A table read by pandas, by column name. */
  type Table = map<string, Column>

  const TopicColumn: string := "topic"

  /** `column.dropna().tolist()`: the present values, in row order. */
  function DropNa(column: Column): (r: seq<string>)
    ensures |r| <= |column|
    ensures forall t :: t in r <==> Some(t) in column
    decreases |column|
  {
    if column == [] then []
    else
      var last := column[|column| - 1];
      DropNa(column[..|column| - 1]) + (match last case None => [] case Some(t) => [t])
  }

  /** Dropping missing values works row by row. */
  lemma {:induction false} DropNaAppend(xs: Column, ys: Column)
    ensures DropNa(xs + ys) == DropNa(xs) + DropNa(ys)
    decreases |ys|
  {
    if ys == [] {
      assert xs + ys == xs;
    } else {
      assert (xs + ys)[..|xs + ys| - 1] == xs + ys[..|ys| - 1];
      DropNaAppend(xs, ys[..|ys| - 1]);
    }
  }

  /** Every present cell is kept, repeats included: a value occurs as often as cells
      hold it. */
  lemma {:induction false} DropNaCounts(column: Column, t: string)
    ensures multiset(DropNa(column))[t] == multiset(column)[Some(t)]
    decreases |column|
  {
    if column != [] {
      var init, last := column[..|column| - 1], column[|column| - 1];
      DropNaCounts(init, t);
      assert column == init + [last];
      assert multiset(column)[Some(t)] == multiset(init)[Some(t)] + multiset{last}[Some(t)];
      var kept := match last case None => [] case Some(x) => [x];
      assert DropNa(column) == DropNa(init) + kept;
      assert multiset(DropNa(column))[t] == multiset(DropNa(init))[t] + multiset(kept)[t];
    }
  }

  /** Only the missing cells are dropped. */
  lemma {:induction false} DropNaLength(column: Column)
    ensures |DropNa(column)| == |column| - multiset(column)[None]
    decreases |column|
  {
    if column != [] {
      var init, last := column[..|column| - 1], column[|column| - 1];
      DropNaLength(init);
      assert column == init + [last];
      assert multiset(column)[None] == multiset(init)[None] + multiset{last}[None];
    }
  }

  // ----- the desktop form ----------------------------------------------------------------

  const EnterTopicMessage: string := "Please enter a topic"
  const MissingColumnMessage: string := "CSV must have 'topic' column"
  const FormatMessage: string := "Invalid file format"

  /** What pressing one of the desktop buttons leads to: nothing, an error box, or one
      generation per listed topic. */
  datatype Launch = Cancelled | ErrorBox(message: string) | Generations(topics: seq<string>)

  /** `run_single`: the topic typed into the entry. */
  function RunSingle(entry: string): (r: Launch)
    ensures r.Cancelled? == false
    ensures r.ErrorBox? <==> entry == []
    ensures r.Generations? ==> r.topics == [entry]
  {
    if entry == [] then ErrorBox(EnterTopicMessage) else Generations([entry])
  }

  /** `run_batch`: the path the dialog returned ("" when it was closed), and what the
      file holds, as text or as a table. */
  function RunBatch(path: string, readText: string -> string, readCsv: string -> Table): (r: Launch)
    ensures r.Cancelled? <==> path == []
    ensures r.Generations? <==>
      path != [] && (EndsWith(path, ".txt") || (EndsWith(path, ".csv") && TopicColumn in readCsv(path)))
    ensures r == ErrorBox(MissingColumnMessage) <==>
      path != [] && !EndsWith(path, ".txt") && EndsWith(path, ".csv") && TopicColumn !in readCsv(path)
    ensures r == ErrorBox(FormatMessage) <==> path != [] && !EndsWith(path, ".txt") && !EndsWith(path, ".csv")
    ensures r.Generations? && EndsWith(path, ".txt") ==> r.topics == TxtTopics(readText(path))
    ensures r.Generations? && !EndsWith(path, ".txt") ==>
      TopicColumn in readCsv(path) && r.topics == DropNa(readCsv(path)[TopicColumn])
  {
    if path == [] then Cancelled
    else if EndsWith(path, ".txt") then Generations(TxtTopics(readText(path)))
    else if EndsWith(path, ".csv") then
      var table := readCsv(path);
      if TopicColumn !in table then ErrorBox(MissingColumnMessage)
      else Generations(DropNa(table[TopicColumn]))
    else ErrorBox(FormatMessage)
  }

  /** A `.csv` upload with a `topic` column starts exactly the present cells of that
      column, in row order, one generation per cell, repeats included. */
  lemma CsvBatchTopics(path: string, readText: string -> string, readCsv: string -> Table, t: string)
    requires !EndsWith(path, ".txt") && EndsWith(path, ".csv") && TopicColumn in readCsv(path)
    ensures RunBatch(path, readText, readCsv).Generations?
    ensures t in RunBatch(path, readText, readCsv).topics <==> Some(t) in readCsv(path)[TopicColumn]
    ensures RunBatch(path, readText, readCsv).topics == DropNa(readCsv(path)[TopicColumn])
    ensures multiset(RunBatch(path, readText, readCsv).topics)[t] == multiset(readCsv(path)[TopicColumn])[Some(t)]
    ensures |RunBatch(path, readText, readCsv).topics| == |readCsv(path)[TopicColumn]| - multiset(readCsv(path)[TopicColumn])[None]
  {
    DropNaCounts(readCsv(path)[TopicColumn], t);
    DropNaLength(readCsv(path)[TopicColumn]);
  }

  /** A desktop generation that went through: the deck and where it was saved. */
  datatype Saved = Saved(path: string, deck: seq<SlideRecord>)

  /** `generate_from_topic` on the desktop: the outline the service answered (None where
      it raises), the image service, and whether `prs.save` goes through. The thread
      ends with nothing saved where any of these raises. */
  function GenerateFromTopic(topic: string, outline: Option<string>, gen: ImageOracle, saves: bool): (r: Option<Saved>)
    ensures r.Some? <==> outline.Some? && ParseStrict(outline.value).Ok? && saves
    ensures r.Some? ==> r.value.path == GuiPath(topic)
  {
    if outline.None? then None
    else match StrictDeck(outline.value, gen)
      case Err(_) => None
      case Ok(deck) => if saves then Some(Saved(GuiPath(topic), deck)) else None
  }

  /** A saved desktop deck has one slide per block of the outline, in order, each with
      the title and bullets the parser gives that block; the path depends on the topic
      alone. */
  lemma GuiSavesParsedOutline(topic: string, outline: string, gen: ImageOracle)
    requires ParseStrict(outline).Ok?
    ensures var r := GenerateFromTopic(topic, Some(outline), gen, true);
      && r.Some?
      && |r.value.deck| == |Blocks(outline)|
      && ForgetAll(r.value.deck) == Parse(outline)
  {
    var d := StrictDeck(outline, gen);
    StrictImagesIrrelevant(outline, gen, gen);
    var r := GenerateFromTopic(topic, Some(outline), gen, true);
    assert r.value.deck == d.value;
  }

  /** Two successful desktop generations of topics that agree on their first fifty
      characters, spaces read as underscores, write the same file. */
  lemma GuiGenerationsCollide(t1: string, t2: string, o1: string, o2: string, g1: ImageOracle, g2: ImageOracle)
    requires SafePrefix(t1, 50) == SafePrefix(t2, 50)
    requires ParseStrict(o1).Ok? && ParseStrict(o2).Ok?
    ensures GenerateFromTopic(t1, Some(o1), g1, true).value.path ==
            GenerateFromTopic(t2, Some(o2), g2, true).value.path
  {
    GuiPathCollision(t1, t2);
  }

  // ----- the browser form ----------------------------------------------------------------

  const EnterTopicWarning: string := "Please enter a topic."

  /** What pressing "Generate Presentation" leads to: a warning, an exception shown on
      the page, or the deck offered for download under the base name of its path. */
  datatype Page =
    | Warning(message: string)
    | Raised
    | Offered(deck: seq<SlideRecord>, path: string, downloadName: string)

  /** The button handler of the browser form: the topic in the text box, the outline
      the service answered (None where it raises), the image service, the time of
      saving, and whether `prs.save` goes through. */
  function GenerateButton(topic: string, outline: Option<string>, gen: ImageOracle, now: Instant, saves: bool): (r: Page)
    ensures r.Warning? <==> topic == []
    ensures r.Offered? <==> topic != [] && outline.Some? && ParseStrict(outline.value).Ok? && saves
    ensures r.Offered? ==> r.path == BrowserPath(topic, now) && r.downloadName == Basename(r.path)
  {
    if topic == [] then Warning(EnterTopicWarning)
    else if outline.None? then Raised
    else match StrictDeck(outline.value, gen)
      case Err(_) => Raised
      case Ok(deck) =>
        if !saves then Raised
        else
          var path := BrowserPath(topic, now);
          Offered(deck, path, Basename(path))
  }

  /** An offered deck has one slide per block of the outline, in order, each with the
      title and bullets the parser gives that block. */
  lemma BrowserOffersParsedOutline(topic: string, outline: string, gen: ImageOracle, now: Instant)
    requires topic != [] && ParseStrict(outline).Ok?
    ensures var r := GenerateButton(topic, Some(outline), gen, now, true);
      && r.Offered?
      && |r.deck| == |Blocks(outline)|
      && ForgetAll(r.deck) == Parse(outline)
  {
    var d := StrictDeck(outline, gen);
    StrictImagesIrrelevant(outline, gen, gen);
    var r := GenerateButton(topic, Some(outline), gen, now, true);
    assert r.deck == d.value;
  }

  /** The download is offered under the saved file's own name when the topic prefix holds
      no slash; with a slash, only the part after the last one is offered. */
  lemma DownloadName(topic: string, outline: string, gen: ImageOracle, now: Instant)
    requires topic != [] && ParseStrict(outline).Ok?
    ensures var r := GenerateButton(topic, Some(outline), gen, now, true);
      && r.Offered?
      && ('/' !in SafePrefix(topic, 40) ==> r.downloadName == r.path)
      && ('/' in SafePrefix(topic, 40) ==> |r.downloadName| < |r.path|)
  {
    var r := GenerateButton(topic, Some(outline), gen, now, true);
    assert r.Offered?;
    BrowserDownloadName(topic, now);
  }
}
