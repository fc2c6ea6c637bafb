# Cross-country meet homepage, modelled in Dafny

`index.py` builds the homepage of a cross-country results site. It lists
the `meets` folder and keeps every name ending in `.html`. For each such page
it runs `MeetNameParser`, an `HTMLParser` subclass that captures the text of
the page's `<h1>` heading. When no name comes back, it derives one from the
file name: the extension is dropped, dashes become spaces and the result is
title-cased. Each page becomes one "meet box" linking to the file. The boxes go
between a fixed header and a fixed footer, and the page is written to
`index.html` in the same folder.

The model has five modules:

- `Wrappers` holds `Option` and `Result`.
- `Seqs` holds small generic sequence facts that the other proofs call by name.
- `PyStr` models the Python string operations the script relies on:
  - `str.strip` and `str.title`, both on ASCII;
  - `str.endswith` and `str.replace` for one character;
  - the root part of `os.path.splitext`.
- `MeetNameParsing` models the parser:
  - the class `MeetNameParser`, with the fields `meetName` and `inH1` and one
    method per handler;
  - `Feed`, a loop that dispatches a sequence of tokenizer events to those handlers;
  - `Step`/`Run`, the same handlers as a fold over the events;
  - an independent reference definition of the name the parser ends with. The
    reference says where the parser is inside an `<h1>`, which text chunks it
    sees there, and which of those chunks wins.
- `Homepage` models `generate_homepage`:
  - the `.html` filter;
  - the fallback name and the choice of display name;
  - reading the pages, where an unreadable page stops the run;
  - the exact header, box and footer text;
  - the method `GenerateHomepage`, which builds the page by appending to a
    string in a loop, as the script does.

File contents are inputs. A page is given as the sequence of events that
Python's HTML tokenizer delivers (`StartTag`, `EndTag`, `Data`). The folder
is given as the list of names that `os.listdir` returns, in that order,
together with a map from file name to events. A listed name that has no entry
in the map stands for a file that cannot be opened or cannot be decoded as
UTF-8 (index.py:26-27).

The comments at index.py:4 and index.py:24 speak of extracting "the `<h1>`
tag content". The code does something narrower, and the model follows the
code:

- The parser does not accumulate the heading's text. It stores `strip()` of
  the first data chunk seen inside an `<h1>` while the stored name is still
  falsy (see `BlankChunkIsReplaced` and `SplitHeadingKeepsFirstChunk`). A
  heading that starts with whitespace-only text stores `""`. That empty string
  is falsy, so a later chunk can replace it. If none does, the empty name
  reaches `generate_homepage`, which falls back to the file name.
- Text in any `<h1>` counts, not only in the first one, as long as no
  non-empty name has been captured yet.
- The filter looks only at names. A folder whose name ends in `.html` passes
  it (and would then fail to open).
- The second run is not a repetition of the first. The page written by the
  first run is named `index.html` and ends in `.html`, so from the second run
  on it is listed, read and parsed like any meet page. It gets a box of its
  own (`RerunListsPreviousOutput`), headed by the text of its own first `<h1>`,
  "Cross Country Meets Homepage" (index.py:49); the boxes use `<h3>`
  (index.py:73), so that heading is the same on every later run. With the
  other pages and the listing order unchanged, later runs therefore repeat the
  second run's page. That last step depends on how the tokenizer splits the
  written page, which is outside this model.

## Model

| member | source | states |
|---|---|---|
| MeetNameParsing.MeetNameParser.constructor | index.py:6-9 | a new parser is outside any `<h1>` and has no meet name |
| MeetNameParsing.MeetNameParser.HandleStartTag | index.py:11-13 | an `h1` start tag sets the in-heading flag; any other tag leaves it as it was; the name is untouched |
| MeetNameParsing.MeetNameParser.HandleEndTag | index.py:15-17 | an `h1` end tag clears the in-heading flag; any other tag leaves it; the name is untouched |
| MeetNameParsing.MeetNameParser.HandleData | index.py:19-21 | inside a heading with a falsy name, the name becomes the stripped chunk; otherwise nothing changes; the flag never changes |
| MeetNameParsing.MeetNameParser.Feed | index.py:27 | after feeding a sequence of events, the parser's state is the fold of the three handlers over them, starting from its previous state |
| MeetNameParsing.ExtractMeetName | index.py:23-28 | a fresh parser fed a page's events ends with the first non-empty stripped chunk of `<h1>` text; failing that, with `""` when some `<h1>` chunk was seen, or with no name when none was |
| MeetNameParsing.Truthy | index.py:20 | Python truthiness of the stored name: `None` and `""` are false; see HandleData, NameIsKept and Homepage.DisplayNameSpec |
| MeetNameParsing.Step | index.py:11-21 | one handler call on the parser's two fields; see the handler methods, which it mirrors |
| MeetNameParsing.Run | index.py:11-27 | the handlers applied to the events in order; see Feed, RunInH1 and RunMeetName |
| MeetNameParsing.RunInH1 | index.py:11-17 | the parser is inside a heading exactly when some `h1` start tag has no `h1` end tag after it |
| MeetNameParsing.RunMeetName | index.py:11-21 | the handlers' final name equals the reference definition over the chunks of `<h1>` text |
| MeetNameParsing.FirstNamed | index.py:20-21 | a captured name is non-empty and has no surrounding whitespace |
| MeetNameParsing.NameIsKept | index.py:20-21 | once the name is truthy, no later event changes it |
| MeetNameParsing.FirstNonEmptyWins | index.py:20-21 | if a prefix of the page already yields a non-empty name, the whole page yields the same name |
| MeetNameParsing.NameIsOneStrippedChunk | index.py:19-21 | any name the parser ends with is stripped, and is `strip()` of one data chunk that arrived inside a heading |
| MeetNameParsing.OneChunkHeading | index.py:11-21 | `<h1>` with one text chunk, whatever its attributes, yields that chunk stripped |
| MeetNameParsing.SplitHeadingKeepsFirstChunk | index.py:20-21 | when a heading's text arrives in two chunks and the first is not blank, only the first is kept |
| MeetNameParsing.BlankChunkIsReplaced | index.py:20-21 | a whitespace-only first chunk stores `""`, and the next chunk replaces it |
| MeetNameParsing.EmptyHeadingHasNoName | index.py:11-21 | an `<h1>` with no text yields no name |
| PyStr.Strip | index.py:21 | the result has no leading or trailing whitespace and is no longer than the input |
| PyStr.StripSpec | index.py:21 | `strip()` removes exactly the whitespace run at each end; the result is empty exactly when the input is all whitespace |
| PyStr.ReplaceChar | index.py:68 | `replace` maps each occurrence of the old character to the new one, keeps every other character and the length, and leaves no old character behind |
| PyStr.Title | index.py:68 | `str.title`; see TitleAt |
| PyStr.TitleAt | index.py:68 | `title()` keeps the length; it upper-cases a letter that starts a word and lower-cases every other letter; it leaves non-letters alone |
| PyStr.EndsWith | index.py:32 | `str.endswith`; see Homepage.MeetFilesCount |
| PyStr.RFind | index.py:68 | the index found is the last occurrence of the character, or -1 when there is none |
| PyStr.SplitExtRoot | index.py:68 | the root of `splitext` is a prefix of the name, and is non-empty for a non-empty name |
| PyStr.SplitExtRootOfHtml | index.py:68 | for a `.html` name, the root is the name without `.html`, unless everything before that extension is dots, in which case it is the whole name |
| Homepage.OutputName | index.py:30 | the default output file name `index.html`; see OutputIsNotExcluded and RerunListsPreviousOutput |
| Homepage.IsMeetFile | index.py:32 | a name ending in `.html`; see MeetFilesCount |
| Homepage.MeetFiles | index.py:32 | the filtered list is no longer than the listing and holds only names ending in `.html` |
| Homepage.MeetFilesCount | index.py:32 | every `.html` name is kept as often as it is listed, and every other name is dropped |
| Homepage.MeetFilesConcat | index.py:32 | the filter keeps listing order: filtering a concatenation concatenates the filtered parts |
| Homepage.NoMeetFiles | index.py:32 | a listing with no `.html` name gives no meet files |
| Homepage.OutputIsNotExcluded | index.py:30-32 | a previously written `index.html` in the folder is treated as a meet page |
| Homepage.Fallback | index.py:68 | the name derived from the file name; see FallbackSpec |
| Homepage.FallbackSpec | index.py:68 | the fallback name has the root's length and no dash; it equals the root with dashes turned into spaces, ignoring case; word-initial letters are upper case and the other letters lower case |
| Homepage.FallbackLength | index.py:68 | for an ordinary `.html` name, the fallback is five characters shorter than the file name |
| Homepage.DisplayName | index.py:66-68 | the heading of a box; see DisplayNameSpec |
| Homepage.DisplayNameSpec | index.py:66-68 | a non-empty extracted name is used as it is; no name, or the empty name, gives the fallback; a non-empty file name always gets a non-empty display name |
| Homepage.EntryFor | index.py:64-76 | the entry for one page; see EntryForSpec |
| Homepage.EntryForSpec | index.py:64-68 | a page's box is headed by the first `<h1>` chunk that strips to non-empty text, and by the fallback when there is no `<h1>` text or only blank `<h1>` text; it links to the file |
| Homepage.ReadPages | index.py:60-64 | the pages read in order, stopping at the first unreadable one; see ReadPagesOk, ReadPagesValues and ReadPagesFirstFailure |
| Homepage.Entries | index.py:60-76 | the entries of all kept files; see ReadPagesValues and EntryForSpec |
| Homepage.ReadPagesOk | index.py:60-64 | reading succeeds exactly when every meet file is readable |
| Homepage.ReadPagesValues | index.py:60-76 | on success there is one entry per meet file, in order, each built from that file's own content |
| Homepage.ReadPagesFirstFailure | index.py:60-64 | a failure names the first unreadable meet file; every file before it was readable |
| Homepage.ReadPagesPropagate | index.py:60-64 | once a file fails, the files after it do not matter |
| Homepage.ReadPagesSameOn | index.py:60-64 | reading depends only on the contents of the listed meet files |
| Homepage.RenderEntry | index.py:71-76 | the exact text of one meet box; see BlockAt |
| Homepage.Header | index.py:35-57 | the exact opening text of the page; see BlockAt and EmptyListing |
| Homepage.Footer | index.py:79-89 | the exact closing text of the page; see BlockAt and EmptyListing |
| Homepage.Render | index.py:35-89 | the header, the boxes and the footer; see BlockAt |
| Homepage.HomepageOf | index.py:30-89 | the page for a listing, or the first unreadable file; see GenerateHomepage, EmptyListing and RerunListsPreviousOutput |
| Homepage.Body | index.py:60-76 | the boxes the loop appends, in order; see BodyConcat, BodySplit and BlockAt |
| Homepage.BodyConcat | index.py:60-76 | the boxes of a concatenation of entries are the boxes of each part, one after the other |
| Homepage.BodySplit | index.py:60-76 | the body is the boxes before entry k, then entry k's box, then the boxes after it |
| Homepage.BlockAt | index.py:35-89 | the page starts with the header and ends with the footer; entry k's box, holding its display name and link, sits right after the header and the boxes before it |
| Homepage.EmptyListing | index.py:35-89 | a folder with no `.html` names gives exactly the header followed by the footer |
| Homepage.MeetFilesWithOutput | index.py:30-32 | when `index.html` is appended to the end of a listing that lacked it, it becomes the last kept file, and no earlier kept file is `index.html` |
| Homepage.ReadPagesAppend | index.py:60-64 | reading one more readable file appends that file's entry to the entries read so far |
| Homepage.ReadPagesConcat | index.py:60-64 | reading two runs of files succeeds exactly when reading each succeeds, and then gives the entries of the first run followed by those of the second |
| Homepage.RenderGrows | index.py:71-76 | one more box, at any position among the others, lengthens the page |
| Homepage.RerunListsPreviousOutput | index.py:30-32 | when `index.html` is inserted anywhere into a listing that lacked it, a run that succeeded before succeeds again and produces a strictly longer page |
| Homepage.GenerateHomepage | index.py:30-89 | the loop either returns the page (the header, then one box per meet file in listing order, then the footer) or stops with the first unreadable file |

## Left out

- The HTML tokenizer that `HTMLParser.feed` runs is not part of this model. A page is its sequence of events. Lower-casing tag names, splitting text into chunks, handling `<h1/>` and decoding character references all belong to the tokenizer.
- File reading (index.py:26-27) is an input: the map from file name to events. The script raises an exception on an unreadable file; the model returns `Err(Unreadable(file))` for the first one and produces no page.
- The write of the page (index.py:92-94) is left out. `GenerateHomepage` returns the text that would be written. `os.path.join` is not modelled, because the boxes link to the bare file name and the path only matters for I/O.
- The `output_file` parameter of `generate_homepage` (index.py:30) is not modelled; the page is always the one for the default name `index.html` (`OutputName`). `OutputIsNotExcluded`, `MeetFilesWithOutput` and `RerunListsPreviousOutput` are stated for that default name only.
- `os.listdir` (index.py:32) is an input list, taken in the order the operating system returns it.
- `create_meet_homepage` (index.py:99-109) is left out, because it only consults the working directory and whether `meets` exists, which are file-system queries. The same goes for the `print` calls (index.py:96, 105).
- PyStr.Strip: models ASCII whitespace only (space, tab through carriage return, and the four separator controls 0x1C-0x1F). Python also strips other Unicode whitespace.
- PyStr.TitleAt: models ASCII letters only. Python's `title()` also case-maps other Unicode letters, and treats any cased character as part of a word.
- PyStr.SplitExtRoot: handles names without a directory separator, which are the only names `os.listdir` returns. Its own contract only says the root is a non-empty prefix; `SplitExtRootOfHtml` states the exact root for the names the filter keeps.
- Homepage.GenerateHomepage: appends to a Dafny string. Python's string `+=` builds a new string, so no in-place update or aliasing is involved.
