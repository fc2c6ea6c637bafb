/**
 * `generate_homepage`: keep the `.html` names of a directory listing, find
 * each page's display name (its `<h1>` text, or a name made from the file
 * name) and build the listing page from a fixed header, one `meet-box`
 * block per page, and a fixed footer.
 *
 * The listing and each page's tokenized content are inputs; the page that
 * would be written is the result.
 */
module Homepage {
  import opened Wrappers
  import opened Seqs
  import opened PyStr
  import opened MeetNameParsing

  /** Why generation stops: a listed page could not be read. */
  datatype Failure = Unreadable(file: string)

  /** One box of the listing: the display name and the relative link. */
  datatype LinkEntry = LinkEntry(name: string, file: string)

  /** The file name the page is written under by default. */
  const OutputName: string := "index.html"

  predicate IsMeetFile(f: string)
  {
    EndsWith(f, ".html")
  }

  // ---------------------------------------------------------------------
  // Step 1: the listing filter.

  /** The names of the listing that end in `.html`, in listing order. */
  function MeetFiles(listing: seq<string>): (r: seq<string>)
    ensures |r| <= |listing|
    ensures forall i :: 0 <= i < |r| ==> IsMeetFile(r[i])
  {
    if listing == [] then []
    else
      var n := |listing| - 1;
      MeetFiles(listing[..n]) + (if IsMeetFile(listing[n]) then [listing[n]] else [])
  }

  /** The filter keeps every `.html` name as often as the listing has it
      and drops every other name. */
  lemma {:induction false} MeetFilesCount(listing: seq<string>, f: string)
    ensures multiset(MeetFiles(listing))[f] == if IsMeetFile(f) then multiset(listing)[f] else 0
  {
    if listing != [] {
      DropLast(listing);
      MeetFilesCount(listing[..|listing| - 1], f);
    }
  }

  /** The filter distributes over concatenation, so the kept names keep
      their listing order. */
  lemma {:induction false} MeetFilesConcat(a: seq<string>, b: seq<string>)
    ensures MeetFiles(a + b) == MeetFiles(a) + MeetFiles(b)
  {
    if b == [] {
      ConcatEmpty(a);
      ConcatEmpty(MeetFiles(a));
    } else {
      DropLastOfConcat(a, b);
      MeetFilesConcat(a, b[..|b| - 1]);
      var last := if IsMeetFile(b[|b| - 1]) then [b[|b| - 1]] else [];
      Assoc(MeetFiles(a), MeetFiles(b[..|b| - 1]), last);
    }
  }

  /** Nothing keeps the generated page itself out of the listing: when a
      previous run's output is in the directory it is listed as a meet. */
  lemma OutputIsNotExcluded(listing: seq<string>)
    requires OutputName in listing
    ensures OutputName in MeetFiles(listing)
  {
    assert IsMeetFile(OutputName);
    MeetFilesCount(listing, OutputName);
  }

  lemma {:induction false} NoMeetFiles(listing: seq<string>)
    requires forall k :: 0 <= k < |listing| ==> !IsMeetFile(listing[k])
    ensures MeetFiles(listing) == []
  {
    if listing != [] {
      NoMeetFiles(listing[..|listing| - 1]);
    }
  }

  // ---------------------------------------------------------------------
  // Step 3: the display name.

  /** `os.path.splitext(f)[0].replace("-", " ").title()`: the name made
      from a file name when its page has no usable heading. */
  function Fallback(file: string): string
  {
    Title(ReplaceChar(SplitExtRoot(file), '-', ' '))
  }

  /** The fallback has as many characters as the root of the file name,
      has no dashes, and matches the root letter for letter up to case,
      with a space wherever the root had a dash. A letter is upper case
      exactly when it starts a word, that is, when no letter precedes it. */
  lemma FallbackSpec(file: string)
    ensures |Fallback(file)| == |SplitExtRoot(file)|
    ensures '-' !in Fallback(file)
    ensures forall i :: 0 <= i < |Fallback(file)| ==>
      ToLower(Fallback(file)[i]) == ToLower(if SplitExtRoot(file)[i] == '-' then ' ' else SplitExtRoot(file)[i])
    ensures forall i :: 0 <= i < |Fallback(file)| && IsLetter(SplitExtRoot(file)[i]) ==>
      (IsUpper(Fallback(file)[i]) <==> i == 0 || !IsLetter(SplitExtRoot(file)[i - 1]))
  {
    var root := SplitExtRoot(file);
    var spaced := ReplaceChar(root, '-', ' ');
    var t := Title(spaced);
    assert Fallback(file) == t;
    TitleAt(spaced);
    forall i | 0 <= i < |Fallback(file)|
      ensures ToLower(Fallback(file)[i]) == ToLower(if SplitExtRoot(file)[i] == '-' then ' ' else SplitExtRoot(file)[i])
      ensures Fallback(file)[i] != '-'
      ensures IsLetter(SplitExtRoot(file)[i]) ==>
        (IsUpper(Fallback(file)[i]) <==> i == 0 || !IsLetter(SplitExtRoot(file)[i - 1]))
    {
      var c := spaced[i];
      assert c == if root[i] == '-' then ' ' else root[i];
      assert IsLetter(c) <==> IsLetter(root[i]);
      if i == 0 || !IsLetter(spaced[i - 1]) {
        assert t[i] == ToUpper(c);
        assert i > 0 ==> !IsLetter(root[i - 1]);
      } else {
        assert t[i] == ToLower(c);
        assert !IsUpper(ToLower(c));
        assert IsLetter(root[i - 1]);
      }
    }
  }

  /** For a `.html` name with something other than dots before the
      extension, the fallback has the length of the name without `.html`. */
  lemma FallbackLength(file: string)
    requires IsMeetFile(file) && !AllDots(file[..|file| - 5])
    ensures |Fallback(file)| == |file| - 5
  {
    FallbackSpec(file);
    SplitExtRootOfHtml(file);
  }

  /** The heading text of a box: the extracted name when it is truthy,
      otherwise the fallback. */
  function DisplayName(extracted: Option<string>, file: string): string
  {
    if Truthy(extracted) then extracted.value else Fallback(file)
  }

  /** The heading of a box is never empty for a non-empty file name; it
      is the parser's name when that name is not empty, and the fallback
      when the parser found nothing or only the empty string. */
  lemma DisplayNameSpec(extracted: Option<string>, file: string)
    ensures file != [] ==> DisplayName(extracted, file) != []
    ensures extracted.Some? && extracted.value != [] ==> DisplayName(extracted, file) == extracted.value
    ensures extracted == None || extracted == Some([]) ==> DisplayName(extracted, file) == Fallback(file)
  {
    FallbackSpec(file);
  }

  // ---------------------------------------------------------------------
  // Steps 2-3 for every kept file: the link entries.

  /** The entry for the file `f` whose tokenized content is `evs`: the
      heading the parser finds, or the fallback, and a link to `f`. */
  function EntryFor(f: string, evs: seq<Event>): LinkEntry
  {
    LinkEntry(DisplayName(ExpectedMeetName(H1Chunks(evs)), f), f)
  }

  /** The box for a page is headed by the first `<h1>` chunk that strips to
      something non-empty; a page with no `<h1>` text, or with only blank
      `<h1>` text, is headed by the fallback. The box links to the file. */
  lemma EntryForSpec(f: string, evs: seq<Event>)
    ensures var c := FirstNamed(H1Chunks(evs));
      EntryFor(f, evs).name == (if c.Some? then c.value else Fallback(f))
    ensures EntryFor(f, evs).file == f
  {
  }

  /** Reads the kept files in order and makes one item of each with `mk`;
      the first file that cannot be read ends the run. */
  function ReadPages<T>(files: seq<string>, pages: map<string, seq<Event>>,
                        mk: (string, seq<Event>) -> T): Result<seq<T>, Failure>
  {
    if files == [] then Ok([])
    else
      var n := |files| - 1;
      var f := files[n];
      match ReadPages(files[..n], pages, mk)
      case Err(e) => Err(e)
      case Ok(items) =>
        if f !in pages then Err(Unreadable(f))
        else Ok(items + [mk(f, pages[f])])
  }

  /** The link entries for `files`, or the first of them that cannot be read. */
  function Entries(files: seq<string>, pages: map<string, seq<Event>>): Result<seq<LinkEntry>, Failure>
  {
    ReadPages(files, pages, EntryFor)
  }

  /** Reading succeeds exactly when every file can be read. */
  lemma {:induction false} ReadPagesOk<T>(files: seq<string>, pages: map<string, seq<Event>>,
                                          mk: (string, seq<Event>) -> T)
    ensures ReadPages(files, pages, mk).Ok? <==> forall k :: 0 <= k < |files| ==> files[k] in pages
  {
    if files != [] {
      var n := |files| - 1;
      ReadPagesOk(files[..n], pages, mk);
      assert forall k :: 0 <= k < n ==> files[..n][k] == files[k];
    }
  }

  /** On success there is one item per file, in order, each made from that
      file's own content. */
  lemma {:induction false} ReadPagesValues<T>(files: seq<string>, pages: map<string, seq<Event>>,
                                              mk: (string, seq<Event>) -> T)
    requires ReadPages(files, pages, mk).Ok?
    ensures |ReadPages(files, pages, mk).value| == |files|
    ensures forall k :: 0 <= k < |files| ==>
      files[k] in pages && ReadPages(files, pages, mk).value[k] == mk(files[k], pages[files[k]])
  {
    if files != [] {
      var n := |files| - 1;
      var pre := files[..n];
      ReadPagesValues(pre, pages, mk);
      forall k | 0 <= k < n
        ensures files[k] in pages && ReadPages(files, pages, mk).value[k] == mk(files[k], pages[files[k]])
      {
        assert pre[k] == files[k];
      }
    }
  }

  /** On failure, the failure names the first file that cannot be read. */
  lemma {:induction false} ReadPagesFirstFailure<T>(files: seq<string>, pages: map<string, seq<Event>>,
                                                    mk: (string, seq<Event>) -> T)
    requires ReadPages(files, pages, mk).Err?
    ensures exists k :: 0 <= k < |files| && ReadPages(files, pages, mk).error == Unreadable(files[k]) &&
                        files[k] !in pages && forall j :: 0 <= j < k ==> files[j] in pages
  {
    var n := |files| - 1;
    var pre := files[..n];
    if ReadPages(pre, pages, mk).Err? {
      ReadPagesFirstFailure(pre, pages, mk);
      var k :| 0 <= k < |pre| && ReadPages(pre, pages, mk).error == Unreadable(pre[k]) &&
               pre[k] !in pages && forall j :: 0 <= j < k ==> pre[j] in pages;
      assert files[k] == pre[k];
      assert forall j :: 0 <= j < k ==> files[j] == pre[j];
    } else {
      ReadPagesOk(pre, pages, mk);
      assert forall j :: 0 <= j < n ==> files[j] == pre[j];
    }
  }

  /** A failure ends the run: later files do not change it. */
  lemma {:induction false} ReadPagesPropagate<T>(a: seq<string>, b: seq<string>, pages: map<string, seq<Event>>,
                                                 mk: (string, seq<Event>) -> T)
    requires ReadPages(a, pages, mk).Err?
    ensures ReadPages(a + b, pages, mk) == ReadPages(a, pages, mk)
  {
    if b == [] {
      ConcatEmpty(a);
    } else {
      DropLastOfConcat(a, b);
      ReadPagesPropagate(a, b[..|b| - 1], pages, mk);
    }
  }

  /** A file that cannot be read, after readable ones, is the failure. */
  lemma ReadPagesStopsAt<T>(files: seq<string>, i: nat, pages: map<string, seq<Event>>,
                            mk: (string, seq<Event>) -> T)
    requires i < |files| && ReadPages(files[..i], pages, mk).Ok? && files[i] !in pages
    ensures ReadPages(files, pages, mk) == Err(Unreadable(files[i]))
  {
    TakeOfTake(files, i);
    ReadPagesPropagate(files[..i + 1], files[i + 1..], pages, mk);
    TakeDrop(files, i + 1);
  }

  /** One more readable file adds one more item. */
  lemma ReadPagesSnoc<T>(files: seq<string>, i: nat, pages: map<string, seq<Event>>,
                         mk: (string, seq<Event>) -> T)
    requires i < |files| && ReadPages(files[..i], pages, mk).Ok? && files[i] in pages
    ensures ReadPages(files[..i + 1], pages, mk) ==
      Ok(ReadPages(files[..i], pages, mk).value + [mk(files[i], pages[files[i]])])
  {
    TakeOfTake(files, i);
  }

  // ---------------------------------------------------------------------
  // Step 4: the page text.

  const BoxOpen: string := "\n        <div class=\"meet-box\">\n            <h3>"
  const BoxMiddle: string := "</h3>\n            <a href=\""
  const BoxClose: string := "\">View Meet Details</a>\n        </div>\n        "

  /** The block the loop appends for one entry: the name inside `<h3>`
      and the file name as the link target. */
  function RenderEntry(e: LinkEntry): string
  {
    BoxOpen + e.name + BoxMiddle + e.file + BoxClose
  }

  const Header: string :=
    "\n    <!DOCTYPE html>\n    <html lang=\"en\">\n    <head>\n" +
    "        <meta charset=\"UTF-8\">\n" +
    "        <meta name=\"viewport\" content=\"width=device-width, initial-scale=1.0\">\n" +
    "        <title>Cross Country Meets</title>\n" +
    "        <link rel=\"stylesheet\" href=\"../css/homepage.css\">\n" +
    "    </head>\n    <body>\n\n    \n\n    <header>\n" +
    "        <h1>Cross Country Meets Homepage</h1>\n" +
    "        <p>Explore all the cross-country meets below.</p>\n" +
    "    </header>\n\n    <main>\n    <section id=\"meets-list\">\n" +
    "    <h2>Available Meets</h2>\n    <div class=\"meet-boxes\">\n    "

  const Footer: string :=
    "\n    </div>\n    </section>\n\n    <footer>\n" +
    "        <p>Skyline Cross Country | <a href=\"https://instagram.com/a2skylinexc\" style=\"color:white;\">Follow us on Instagram</a></p>\n" +
    "    </footer>\n\n    </body>\n    </html>\n    "

  /** The blocks of `es`, one after another. */
  function Body(es: seq<LinkEntry>): string
  {
    if es == [] then "" else Body(es[..|es| - 1]) + RenderEntry(es[|es| - 1])
  }

  /** The whole page for the entries `es`. */
  function Render(es: seq<LinkEntry>): string
  {
    Header + Body(es) + Footer
  }

  /** The page `generate_homepage` writes for a listing, or the failure. */
  function HomepageOf(listing: seq<string>, pages: map<string, seq<Event>>): Result<string, Failure>
  {
    match Entries(MeetFiles(listing), pages)
    case Ok(es) => Ok(Render(es))
    case Err(e) => Err(e)
  }

  lemma BodySnoc(es: seq<LinkEntry>, e: LinkEntry)
    ensures Body(es + [e]) == Body(es) + RenderEntry(e)
  {
    DropLastOfConcat(es, [e]);
    ConcatEmpty(es);
  }

  lemma {:induction false} BodyConcat(a: seq<LinkEntry>, b: seq<LinkEntry>)
    ensures Body(a + b) == Body(a) + Body(b)
  {
    if b == [] {
      ConcatEmpty(a);
      ConcatEmpty(Body(a));
    } else {
      var pre, last := b[..|b| - 1], b[|b| - 1];
      DropLast(b);
      Assoc(a, pre, [last]);
      BodyConcat(a, pre);
      BodySnoc(a + pre, last);
      Assoc(Body(a), Body(pre), RenderEntry(last));
    }
  }

  lemma BodySplit(es: seq<LinkEntry>, k: nat)
    requires k < |es|
    ensures Body(es) == Body(es[..k]) + RenderEntry(es[k]) + Body(es[k + 1..])
  {
    SplitAt(es, k);
    BodyConcat(es[..k] + [es[k]], es[k + 1..]);
    BodySnoc(es[..k], es[k]);
  }

  /** The page is the header, then the block of each entry in order, then
      the footer: block `k` starts right after the header and the blocks
      before it. */
  lemma BlockAt(es: seq<LinkEntry>, k: nat)
    requires k < |es|
    ensures var start := |Header| + |Body(es[..k])|;
      start + |RenderEntry(es[k])| <= |Render(es)| &&
      Render(es)[start..start + |RenderEntry(es[k])|] == RenderEntry(es[k])
    ensures Render(es)[..|Header|] == Header
    ensures Render(es)[|Render(es)| - |Footer|..] == Footer
  {
    var before, block, after := Body(es[..k]), RenderEntry(es[k]), Body(es[k + 1..]);
    BodySplit(es, k);
    Regroup(Header, before, block, after, Footer);
    SlicesOfConcat(Header + before, block, after + Footer);
    SlicesOfConcat(Header, Body(es), Footer);
  }

  /** With no `.html` names in the listing the page is header then footer. */
  lemma EmptyListing(listing: seq<string>, pages: map<string, seq<Event>>)
    requires forall k :: 0 <= k < |listing| ==> !IsMeetFile(listing[k])
    ensures HomepageOf(listing, pages) == Ok(Header + Footer)
  {
    NoMeetFiles(listing);
    ConcatEmpty(Header);
  }

  // ---------------------------------------------------------------------
  // Running the generator again in the same directory.

  /** Reading depends only on the content of the files it reads. */
  lemma {:induction false} ReadPagesSameOn<T>(files: seq<string>, p1: map<string, seq<Event>>,
                                              p2: map<string, seq<Event>>, mk: (string, seq<Event>) -> T)
    requires forall k :: 0 <= k < |files| ==>
      (files[k] in p1 <==> files[k] in p2) && (files[k] in p1 ==> p1[files[k]] == p2[files[k]])
    ensures ReadPages(files, p1, mk) == ReadPages(files, p2, mk)
  {
    if files != [] {
      var n := |files| - 1;
      assert forall k :: 0 <= k < n ==> files[..n][k] == files[k];
      ReadPagesSameOn(files[..n], p1, p2, mk);
    }
  }

  /** Adding `index.html` to a listing that lacks it adds it at the end of
      the kept files, and none of the files kept before is `index.html`. */
  lemma MeetFilesWithOutput(listing: seq<string>)
    requires OutputName !in listing
    ensures MeetFiles(listing + [OutputName]) == MeetFiles(listing) + [OutputName]
    ensures OutputName !in MeetFiles(listing)
  {
    MeetFilesConcat(listing, [OutputName]);
    assert [OutputName][..0] == [];
    MeetFilesCount(listing, OutputName);
  }

  /** Reading one more readable file adds its item at the end. */
  lemma ReadPagesAppend<T>(files: seq<string>, f: string, pages: map<string, seq<Event>>,
                           mk: (string, seq<Event>) -> T)
    requires ReadPages(files, pages, mk).Ok? && f in pages
    ensures ReadPages(files + [f], pages, mk) == Ok(ReadPages(files, pages, mk).value + [mk(f, pages[f])])
  {
    DropLastOfConcat(files, [f]);
  }

  /** Reading two runs of files one after the other succeeds exactly when
      reading each succeeds, and then yields the items of both, in order. */
  lemma {:induction false} ReadPagesConcat<T>(a: seq<string>, b: seq<string>, pages: map<string, seq<Event>>,
                                              mk: (string, seq<Event>) -> T)
    ensures ReadPages(a + b, pages, mk).Ok? <==> ReadPages(a, pages, mk).Ok? && ReadPages(b, pages, mk).Ok?
    ensures ReadPages(a + b, pages, mk).Ok? ==>
      ReadPages(a + b, pages, mk).value == ReadPages(a, pages, mk).value + ReadPages(b, pages, mk).value
  {
    if b == [] {
      ConcatEmpty(a);
      if ReadPages(a, pages, mk).Ok? {
        ConcatEmpty(ReadPages(a, pages, mk).value);
      }
    } else {
      var n := |b| - 1;
      ReadPagesConcat(a, b[..n], pages, mk);
      DropLast(b);
      Assoc(a, b[..n], [b[n]]);
      DropLastOfConcat(a + b[..n], [b[n]]);
      if ReadPages(a + b[..n], pages, mk).Ok? && b[n] in pages {
        Assoc(ReadPages(a, pages, mk).value, ReadPages(b[..n], pages, mk).value, [mk(b[n], pages[b[n]])]);
      }
    }
  }

  /** One more box, anywhere among the others, makes a longer page. */
  lemma RenderGrows(x: seq<LinkEntry>, e: LinkEntry, y: seq<LinkEntry>)
    ensures |Render(x + [e] + y)| > |Render(x + y)|
  {
    BodyConcat(x + [e], y);
    BodySnoc(x, e);
    BodyConcat(x, y);
  }

  /** A second run is not a repetition of the first: the page the first run
      wrote is now in the listing, wherever the directory lists it, ends in
      `.html`, and gets a block of its own, so the new page is strictly
      longer. */
  lemma RerunListsPreviousOutput(a: seq<string>, b: seq<string>, pages: map<string, seq<Event>>,
                                 written: seq<Event>)
    requires OutputName !in a + b
    requires HomepageOf(a + b, pages).Ok?
    ensures HomepageOf(a + [OutputName] + b, pages[OutputName := written]).Ok?
    ensures |HomepageOf(a + [OutputName] + b, pages[OutputName := written]).value|
            > |HomepageOf(a + b, pages).value|
  {
    var fa, fb := MeetFiles(a), MeetFiles(b);
    var pages2 := pages[OutputName := written];
    MeetFilesConcat(a, b);
    MeetFilesConcat(a + [OutputName], b);
    MeetFilesWithOutput(a);
    MeetFilesWithOutput(a + b);
    assert MeetFiles(a + [OutputName] + b) == (fa + [OutputName]) + fb;
    ReadPagesSameOn(fa + fb, pages, pages2, EntryFor);
    ReadPagesConcat(fa, fb, pages2, EntryFor);
    var x, y := Entries(fa, pages2).value, Entries(fb, pages2).value;
    ReadPagesAppend(fa, OutputName, pages2, EntryFor);
    ReadPagesConcat(fa + [OutputName], fb, pages2, EntryFor);
    RenderGrows(x, EntryFor(OutputName, written), y);
  }

  /** `generate_homepage` without the file system: the listing and the
      tokenized pages are given, the page text is returned. */
  method GenerateHomepage(listing: seq<string>, pages: map<string, seq<Event>>)
    returns (r: Result<string, Failure>)
    ensures r == HomepageOf(listing, pages)
  {
    var meetFiles := MeetFiles(listing);
    var htmlContent := Header;
    ghost var es: seq<LinkEntry> := [];
    for i := 0 to |meetFiles|
      invariant Entries(meetFiles[..i], pages) == Ok(es)
      invariant htmlContent == Header + Body(es)
    {
      var meetFile := meetFiles[i];
      if meetFile !in pages {
        ReadPagesStopsAt(meetFiles, i, pages, EntryFor);
        return Err(Unreadable(meetFile));
      }
      var meetName := ExtractMeetName(pages[meetFile]);
      var name: string;
      if !Truthy(meetName) {
        name := Fallback(meetFile);
      } else {
        name := meetName.value;
      }
      var entry := LinkEntry(name, meetFile);
      assert entry == EntryFor(meetFile, pages[meetFile]);
      ReadPagesSnoc(meetFiles, i, pages, EntryFor);
      BodySnoc(es, entry);
      Assoc(Header, Body(es), RenderEntry(entry));
      htmlContent := htmlContent + RenderEntry(entry);
      es := es + [entry];
    }
    TakeAll(meetFiles);
    htmlContent := htmlContent + Footer;
    r := Ok(htmlContent);
  }
}
