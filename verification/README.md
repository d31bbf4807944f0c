# Slide generator: outline parsing, deck assembly and the batch scheduler

This project models the core of a small slide-deck generator. The generator has three
entry points:

- an Airtable scheduler that builds decks in batch with python-pptx and e-mails them;
- a tkinter desktop form;
- a Streamlit browser form.

All three ask a text service for an outline of the form
`Slide 1 Title: …` / `Slide 1 Content: …`, then cut that outline into slides. Each slide
gets a picture from an image service when one can be had. The entry points then save the
presentation under a name derived from the topic.

The modules follow the program:

- `wrappers.dfy`: `Option` and `Result`.
- `pystr.dfy` (`PyStr`): the Python string operations the parsers rely on. These are
  `str.strip()` with CPython's whitespace set, `in`, `str.find`, `str.split(sep)`,
  `sep.join`, `s.split(sep, 1)[1]`, slicing, `replace`, `startswith` and `endswith`. The
  module also proves the laws that relate them, such as join after split and split after
  join.
- `decimal.dfy`, `clock.dfy`: `str(n)`, zero-padded fields, and the
  `strftime('%Y%m%d_%H%M%S')` stamp with its inverse.
- `seqs.dfy`: generic sequence helpers, namely indexed map, filter-map and "all present".
- `outline.dfy` (`Outline`): the tolerant parser of the batch job and the strict parser
  of the two forms.
- `outline_laws.dfy` (`OutlineLaws`): all-input laws of the parsers, plus concrete
  outlines that pin down the edge cases.
- `deck.dfy` (`Deck`): slide records with optional pictures, the three ways a deck is
  named and placed, `os.path.join` and `os.path.basename`.
- `topics.dfy` (`Topics`): `fetch_topics` as a filter over Airtable records, and
  `mark_topic_done` as an update of the table.
- `batch.dfy` (`Batch`): `batch_generate` as a trace of steps per topic, and what a run
  acknowledges.
- `frontends.dfy` (`Frontends`): the desktop buttons and the browser button. This covers
  the empty-topic guards, `.txt` cleaning, the `.csv` column check, extension dispatch,
  the saved path and the download name.

The outside world enters as parameters:

- the outline text is an `Option<string>` (`None` where the service raises);
- the image service is a function from a slide's position and prompt to `Option` of
  bytes, so each slide's picture can fail on its own;
- the clock is an `Instant`;
- whether saving, e-mailing and marking return normally are booleans;
- file contents, the chosen path and the CSV table are plain values.

Some behaviours of the code are easy to miss. The model follows the code:

- **Blank lines in a block.** Whitespace-only lines inside a block are not skipped. Only
  the block as a whole is stripped, so such a line becomes a bullet of its own
  (`OutlineLaws.BlankLineKept`).
- **Empty titles.** A title can be empty: a title line ending in `": "` yields `""` in
  both parsers (`OutlineLaws.EmptyTitle`).
- **Parsing joined outlines.** Parsing two outlines joined by a blank line gives the
  concatenation of their parses only when every block of the second carries its own
  title. Fallback titles are numbered by position, so `"x\n\ny"` titles its second slide
  "Slide 2", while `"y"` alone gives "Slide 1" (`OutlineLaws.ParseConcat`,
  `OutlineLaws.ConcatShiftsFallbacks`).
- **Shared file names.** Output names are not unique per run:
  - the desktop path has no timestamp, so topics that agree on their first fifty
    characters write the same file, and "a b" and "a_b" collide too
    (`Deck.GuiPathCollision`, `Deck.DistinctTopicsSharePath`);
  - timestamped names repeat within the same second (`Deck.TimestampedNameInjective`).
- **Topics starting with a slash.** The batch job's deck leaves the `slides` folder when
  the topic starts with `/`, because POSIX `os.path.join` then drops the folder
  (`Deck.DeckPathInFolder`). The desktop form behaves the same (`Deck.GuiPathInFolder`).
  A topic holding `..`, such as `"../x"`, gives a path that begins with `slides/` and
  still names a file outside the folder; the model does not normalise paths.
- **Download names.** The browser form's download name is shorter than the saved file's
  name when the topic prefix holds a `/` (`Deck.BrowserDownloadName`).

## Model

| member | source | states |
|---|---|---|
| PyStr.Strip | slidegen_airtable_pptx.py:114 | `strip()` returns the middle of its input between an all-whitespace prefix and an all-whitespace suffix, a piece that neither starts nor ends with whitespace; it is empty exactly when the input is all whitespace |
| PyStr.StripIdempotent | slidegen_airtable_pptx.py:117 | for every string, stripping twice gives the same as stripping once |
| PyStr.Split | slidegen_airtable_pptx.py:114 | `split(sep)` never returns an empty list, as Python's `"".split(sep) == [""]` |
| PyStr.SplitNoCut | slidegen_airtable_pptx.py:114 | `split(sep)` gives one piece exactly when `sep` does not occur, and that piece is the whole string |
| PyStr.SplitFirstCut | slidegen_airtable_pptx.py:114 | when `sep` first occurs at `k`, `split(sep)` is the text before `k` followed by the split of what follows that occurrence, so every cut is the leftmost one, even for a separator that overlaps itself |
| PyStr.SplitOverlapping | slidegen_airtable_pptx.py:114 | with the self-overlapping `"\n\n"`, three line feeds split into `""` and `"\n"`, and four between `a` and `b` give three pieces `a`, `""`, `b` |
| PyStr.JoinSplit | slidegen_airtable_pptx.py:114 | joining the pieces of a split with the separator gives the text back |
| PyStr.SplitJoin | slidegen_gui_tkinter.py:47 | pieces that do not hold the one-character separator, once joined, split back into themselves |
| PyStr.AfterFirst | slidegen_airtable_pptx.py:118 | `s.split(sep, 1)[1]` exists exactly when `sep in s`, and is what follows the first occurrence |
| Decimal.NatToDecimalRoundTrip | slidegen_airtable_pptx.py:118 | the decimal text of `i+1` used in `"Slide {i+1}"` reads back as the number |
| Outline.Bullet | slidegen_airtable_pptx.py:119 | a bullet is what follows the line's first `": "`, or the whole line when it has none |
| Outline.Bullets | slidegen_airtable_pptx.py:119 | one bullet per line after the title line, in order, so the count is the line count minus one |
| Outline.Title | slidegen_airtable_pptx.py:118 | the title is what follows the first `": "` of the title line, or `"Slide {i+1}"` when there is none |
| Outline.ParseBlock | slidegen_airtable_pptx.py:117-119 | the block at 0-based position `i` is read as its title, positional fallback included, and its bullets |
| Outline.Parse | slidegen_airtable_pptx.py:114-119 | the tolerant parser never fails; it gives one slide per block of `text.strip().split("\n\n")`, at least one, in block order, slide `i` read from block `i` |
| Outline.StrictBlock | slidegen_gui_tkinter.py:44-46 | a block reads strictly exactly when its title line holds `": "`, and then agrees with the tolerant reading at any position |
| Outline.ParseStrict | slidegen_gui_tkinter.py:41-47 | the strict parser (the same code as slidegen_streamlit_app.py:39-45) succeeds exactly when every block's title line holds `": "`, and then returns the tolerant parse; otherwise it names the first block without one, where Python raises |
| OutlineLaws.BlocksCoverText | slidegen_airtable_pptx.py:114 | the blocks joined by blank lines are exactly the stripped outline: nothing is lost between slides |
| OutlineLaws.LinesCoverBlock | slidegen_airtable_pptx.py:117 | the lines of a block joined by line breaks are exactly the stripped block |
| OutlineLaws.BlankOutline | slidegen_airtable_pptx.py:114-119 | empty or whitespace-only input gives exactly one slide, "Slide 1", with no bullets |
| OutlineLaws.TitledAnyPosition | slidegen_airtable_pptx.py:118 | a block that carries a title reads the same at every position |
| OutlineLaws.FallbackTitleInjective | slidegen_airtable_pptx.py:118 | different positions get different fallback titles |
| OutlineLaws.ParseConcat | slidegen_airtable_pptx.py:114-119 | parsing two non-empty stripped outlines joined by a blank line gives the slides of the first then of the second, when every block of the second is titled |
| OutlineLaws.ParseStrictConcat | slidegen_gui_tkinter.py:41-46 | for two non-empty stripped outlines joined by a blank line, the strict parser accepts the join exactly when it accepts both parts, and then returns both parses in order |
| OutlineLaws.ParseNoBreaks | slidegen_airtable_pptx.py:117-119 | no title or bullet holds a line break |
| OutlineLaws.ContentParagraphs | slidegen_gui_tkinter.py:47 | the content text `'\n'.join(bullets)` of a slide with bullets splits back into exactly its bullets |
| OutlineLaws.WorkedExample | slidegen_airtable_pptx.py:114-119 | the two-block example outline gives ("Intro", ["Hello", "World"]) and ("Done", []), and the strict parser agrees |
| OutlineLaws.ConcatShiftsFallbacks | slidegen_airtable_pptx.py:116-118 | for untitled blocks, parsing "x\n\ny" differs from parsing "x" and "y" apart, because the second fallback title becomes "Slide 2" |
| OutlineLaws.EmptyTitle | slidegen_gui_tkinter.py:45 | a title line ending in `": "` yields an empty title that both parsers accept |
| OutlineLaws.BlankLineKept | slidegen_airtable_pptx.py:117-119 | a whitespace-only line inside a block stays as a bullet |
| Deck.StrictPrompt | slidegen_gui_tkinter.py:55 | the forms' image prompt exists exactly when the slide has a first bullet; otherwise `bullets[0]` raises and the picture is skipped |
| Deck.TolerantDeck | slidegen_airtable_pptx.py:116-137 | the batch deck has one record per block, in order; record `i` keeps slide `i`'s parsed text and carries whatever picture the service returned for slide `i` asked with `f"{title} - {topic}"` |
| Deck.StrictDeck | slidegen_gui_tkinter.py:41-61 | the forms' deck fails exactly where, and with the error that, the strict parser does; otherwise it has one record per block, in order, record `i` with a picture exactly when slide `i` has a first bullet and the service served slide `i` asked with `f"{title}, {bullets[0]}"` |
| Deck.TolerantImagesIrrelevant | slidegen_airtable_pptx.py:135-137 | whatever the image service does, the batch deck's text is exactly the parsed outline |
| Deck.TolerantDeckWithoutImages | slidegen_airtable_pptx.py:108-110 | with an image service that always fails, every slide is still there, none with a picture |
| Deck.StrictImagesIrrelevant | slidegen_gui_tkinter.py:54-61 | the image service decides neither whether the forms' deck is built nor what text it holds |
| Deck.SafePrefix | slidegen_airtable_pptx.py:139 | `topic[:n].replace(' ', '_')` has at most `n` characters, no space, and keeps every other character of the topic in place |
| Clock.Stamp | slidegen_airtable_pptx.py:139 | the stamp is fifteen characters, digits around an underscore at index 8 |
| Clock.StampRoundTrip | slidegen_streamlit_app.py:61 | reading the stamp back gives the clock reading |
| Clock.StampInjective | slidegen_streamlit_app.py:61 | different clock readings never share a stamp |
| Deck.TimestampedNameRoundTrip | slidegen_airtable_pptx.py:139 | the file name is the safe prefix, `_`, the 15-character stamp and `.pptx`, and reads back into prefix and time |
| Deck.TimestampedNameInjective | slidegen_streamlit_app.py:61 | two timestamped names agree only for equal safe prefixes within the same second |
| Deck.Basename | slidegen_airtable_pptx.py:152 | `os.path.basename` is the slash-free tail of the path that starts it or follows a slash |
| Deck.DeckPathInFolder | slidegen_airtable_pptx.py:140 | the batch deck's path begins with `slides/` exactly when the topic does not start with a slash; then it is `slides/` followed by the file name, and otherwise the file name alone |
| Deck.BasenameOfJoin | slidegen_airtable_pptx.py:140 | `os.path.join(folder, name)` with a non-empty slash-free name has that name as its base name, whatever the folder |
| Deck.DeckAttachmentName | slidegen_airtable_pptx.py:152 | the e-mail attachment is named after the timestamped file name when the topic prefix holds no slash |
| Deck.GuiPathInFolder | slidegen_gui_tkinter.py:64 | the desktop path begins with `gui_presentations/` exactly when the topic does not start with a slash; with a slash-free prefix its base name is the prefix plus `.pptx` |
| Deck.GuiPathCollision | slidegen_gui_tkinter.py:64 | two topics share a desktop path exactly when their 50-character safe prefixes agree |
| Deck.DistinctTopicsSharePath | slidegen_gui_tkinter.py:64 | the different topics "a b" and "a_b" are saved to the same desktop path |
| Deck.BrowserDownloadName | slidegen_streamlit_app.py:81 | the download name is the saved name when the topic prefix has no slash, and is shorter otherwise |
| Topics.FetchTopicsMembership | slidegen_airtable_pptx.py:72-76 | an entry is fetched exactly when some record with that id and topic has a non-empty Topic and a Status other than "Done", absence included |
| Topics.FetchTopicsAppend | slidegen_airtable_pptx.py:72-76 | fetching is record by record, so entries keep the records' order |
| Topics.FetchTopics | slidegen_airtable_pptx.py:71-77 | no more topics are fetched than records were returned, and every fetched topic is non-empty |
| Topics.FetchTopicsLoop | slidegen_airtable_pptx.py:71-77 | the loop of `fetch_topics` computes the pending filter |
| Topics.MarkDone | slidegen_airtable_pptx.py:79-82 | marking sets Status to "Done" on the records with that id and changes nothing else |
| Topics.FetchAfterMarkDone | slidegen_airtable_pptx.py:79-82 | after marking an id, the next fetch is the previous one minus that id's entries, in order |
| Topics.FetchAfterMarkAllDone | slidegen_airtable_pptx.py:79-82 | after marking a list of ids, the next fetch is the previous one minus all their entries, in order |
| Batch.TopicEvents | slidegen_airtable_pptx.py:165-174 | one topic's attempt performs outline, deck, e-mail and mark in that order, all for that topic's record; each step returns normally exactly when the world lets it, the attempt stops at the first step that raises, so a failed outline request reaches neither e-mail nor marking; the deck is built from the outline the service answered with this attempt's image service, and the last step goes through exactly when the whole attempt succeeds |
| Batch.BatchGenerateLoop | slidegen_airtable_pptx.py:158-174 | the loop of `batch_generate` performs one attempt per fetched topic, in fetch order |
| Batch.Run | slidegen_airtable_pptx.py:164-174 | every topic of the list has its outline requested exactly once, in list order, whatever fails on other topics; the run marks done exactly the ids of the topics whose every step went through, in order |
| Batch.BatchGenerate | slidegen_airtable_pptx.py:158-174 | `batch_generate` requests an outline for exactly the fetched topics, in fetch order, and marks done exactly the ids of those whose attempt succeeded |
| Batch.SavedDeckIsParsedOutline | slidegen_airtable_pptx.py:165-166 | the deck a topic's attempt saves and e-mails is the batch deck of the outline the service answered, one slide per block, with exactly the parsed text, whatever the image service did |
| Batch.RunMarkFollowsEmail | slidegen_airtable_pptx.py:169-170 | every marking directly follows an e-mail for the same record that returned normally |
| Batch.EmailCarriesSavedDeck | slidegen_airtable_pptx.py:168-169 | the e-mail's subject is the topic and its attachment is the file the deck was just saved to, named after the topic and the time of saving |
| Batch.EmailedButUnmarked | slidegen_airtable_pptx.py:169-170 | a topic whose e-mail went out but whose marking raised is not acknowledged |
| Batch.NextFetch | slidegen_airtable_pptx.py:160-170 | after a run, the next fetch returns exactly the first fetch's entries whose id no successful attempt marked, in order |
| Batch.SucceededIdsMembership | slidegen_airtable_pptx.py:164-170 | an id is among the succeeded ones exactly when some topic with that id was attempted successfully |
| Batch.FailedTopicStays | slidegen_airtable_pptx.py:173-174 | a topic whose attempt failed is fetched again by the next run, provided no fetched topic with the same record id succeeded |
| Frontends.Newlines | slidegen_gui_tkinter.py:86 | reading a file in text mode leaves no carriage return and never lengthens the text |
| Frontends.NewlinesJoin | slidegen_gui_tkinter.py:86 | lines ended by `"\r\n"`, or by a lone `"\r"` not followed by a line feed, are read in text mode as the same lines ended by `"\n"` |
| Frontends.NewlinesPlain | slidegen_gui_tkinter.py:86 | reading text without carriage returns in text mode changes nothing |
| Frontends.CleanLine | slidegen_gui_tkinter.py:87 | a line is kept exactly when it is not all whitespace, and then as its stripped form |
| Frontends.CleanLinesMembership | slidegen_gui_tkinter.py:87 | a topic is kept exactly when it is non-empty and the stripped form of some line |
| Frontends.CleanLinesAreClean | slidegen_gui_tkinter.py:87 | every kept topic is non-empty and has no whitespace at either end |
| Frontends.CleanLinesAppend | slidegen_gui_tkinter.py:87 | cleaning works line by line, so kept topics keep the file's order |
| Frontends.CleanLinesIdempotent | slidegen_gui_tkinter.py:87 | cleaning a cleaned list changes nothing |
| Frontends.TxtTopicsClean | slidegen_gui_tkinter.py:85-87 | every topic read from a `.txt` upload is non-empty and has no whitespace at either end |
| Frontends.TxtLineEndings | slidegen_gui_tkinter.py:85-87 | clean topics written one per line with `"\r\n"` or `"\r"` line endings are uploaded as exactly those topics |
| Frontends.TxtRoundTrip | slidegen_gui_tkinter.py:85-87 | writing clean topics one per line and uploading the file gives exactly those topics back |
| Frontends.DropNa | slidegen_gui_tkinter.py:93 | `dropna().tolist()` keeps exactly the present cells, no more than the column holds |
| Frontends.DropNaCounts | slidegen_gui_tkinter.py:93 | every value occurs in `dropna().tolist()` exactly as often as cells of the column hold it |
| Frontends.DropNaLength | slidegen_gui_tkinter.py:93 | `dropna().tolist()` is as long as the column less its missing cells |
| Frontends.DropNaAppend | slidegen_gui_tkinter.py:93 | dropping missing cells works row by row, so row order is kept |
| Frontends.RunSingle | slidegen_gui_tkinter.py:74-79 | an empty entry shows the error box and starts nothing; otherwise exactly that topic is generated |
| Frontends.RunBatch | slidegen_gui_tkinter.py:81-99 | a closed dialog does nothing; generations start exactly for a `.txt` file, or a `.csv` file with a `topic` column, and for a `.txt` file they are its cleaned lines and for a `.csv` file the present cells of its `topic` column, in order; the missing-column and the format error each show exactly in their case |
| Frontends.CsvBatchTopics | slidegen_gui_tkinter.py:88-99 | a `.csv` with a `topic` column starts one generation per present cell, in row order: each value as often as cells hold it, and as many as the column has present cells |
| Frontends.GenerateFromTopic | slidegen_gui_tkinter.py:68-72 | a desktop generation saves exactly when the outline arrives, parses strictly and the save goes through, and always at the topic's fixed path |
| Frontends.GuiSavesParsedOutline | slidegen_gui_tkinter.py:63-65 | a saved desktop deck has one slide per block, with the parsed text of each |
| Frontends.GuiGenerationsCollide | slidegen_gui_tkinter.py:64-65 | two successful generations of topics with the same safe prefix write the same file |
| Frontends.GenerateButton | slidegen_streamlit_app.py:71-81 | an empty topic gives the warning; a deck is offered exactly when the topic is non-empty, the outline arrives and parses strictly and the save goes through, at the timestamped path under its base name |
| Frontends.BrowserOffersParsedOutline | slidegen_streamlit_app.py:75-81 | an offered deck has one slide per block, with the parsed text of each |
| Frontends.DownloadName | slidegen_streamlit_app.py:79-81 | the download name is the saved file's name unless the topic prefix holds a slash |

## Left out

- **Service calls.** The text and image services (`generate_slide_content`,
  `generate_image`) are foreign network calls. Their answers are inputs, and the prompt
  text sent for the outline is not modelled.
- **Airtable HTTP requests.** The GET and PATCH requests are replaced by a list of
  records and by an update of that list.
- **E-mail.** Sending an e-mail (`smtplib`, `EmailMessage`, MIME type, body text) is
  reduced to its subject, its attachment and whether it returned normally.
- **python-pptx.** Layouts, geometry, fonts and `prs.save` are left out. A deck is a
  sequence of slide records, and saving is a path plus a success flag.
- **Plumbing.**
  - The Flask dashboard, `run_dashboard`, `webbrowser` and the tkinter and Streamlit
    widgets are user interface or I/O.
  - Logging, `time.sleep` and `os.makedirs` are side effects. The effect of
    `os.makedirs` failing is folded into the save flag.
- **Desktop threads.** Each desktop generation runs on its own thread. Their
  interleaving, and which of two colliding saves wins, is not modelled. Each generation
  is modelled on its own.
- Clock.Stamp: covers years 1000 to 9999 only. How `%Y` pads earlier years depends on
  the platform.
- Topics.FetchTopicsMembership: Topic and Status are modelled as optional strings.
  Python's truthiness of non-string field values is not modelled. Neither is the
  `KeyError` that a record without `fields` raises, which ends the whole fetch.
- Deck.TimestampedName: states its meaning through `Deck.TimestampedNameRoundTrip` and
  `Deck.TimestampedNameInjective` rather than its own contract.
- Deck.PathJoin / Deck.Basename: follow POSIX path rules (`posixpath`), where only `/`
  separates and a leading `/` makes a path absolute. On Windows, `ntpath` also splits at
  `\` and treats a drive prefix such as `C:` as a root. There the slash statements above
  (`Deck.DeckPathInFolder`, `Deck.GuiPathInFolder`, `Deck.DeckAttachmentName`,
  `Deck.BrowserDownloadName`) would also have to consider those characters.
- Topics.MarkDone: assumes the PATCH takes effect. A rejected PATCH (an HTTP error status
  that `requests` does not raise) would leave the record pending.
- Deck.TolerantDeck: assumes every picture the service delivers can be inserted. In the
  batch job, `add_picture` raising on undecodable bytes is outside any per-slide handler,
  so it ends that topic's attempt. The batch model folds that case into the deck step
  failing (`Batch.TopicEvents` with `saved` false).
- Deck.StrictDeck: requests no pictures when the strict parse fails. The code requests
  pictures for the blocks before the failing one, and then discards them.
- Frontends.TxtTopicsClean: the file is taken as decoded text. The text encoding, and Python
  iterating lines with their terminators, are not modelled. Stripping removes the
  terminators, so the kept topics agree.
- Frontends.DropNa: cells are strings or missing. pandas' type inference (numeric cells,
  quoting, malformed files) is not modelled.
- Frontends.GenerateButton: an exception in the Streamlit script is shown as one `Raised`
  page, whatever its message.
