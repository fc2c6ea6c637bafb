/**
 * The `<h1>` capture of `MeetNameParser`: an HTML parser whose callbacks
 * remember whether the tokenizer is inside an `h1` element and keep the
 * stripped text of the first data chunk met inside one that is not empty.
 *
 * The tokenizer is not modelled: a document is given as the list of
 * events the tokenizer would deliver to the callbacks.
 */
module MeetNameParsing {
  import opened Wrappers
  import opened Seqs
  import opened PyStr

  /** A tag attribute as the tokenizer reports it; the value may be absent. */
  datatype Attr = Attr(name: string, value: Option<string>)

  /** One callback the tokenizer makes. */
  datatype Event =
    | StartTag(tag: string, attrs: seq<Attr>)
    | EndTag(tag: string)
    | Data(data: string)

  /** The parser's two fields. */
  datatype ParserState = ParserState(inH1: bool, meetName: Option<string>)

  /** The fields as the constructor sets them. */
  const Initial := ParserState(false, None)

  /** Python truthiness of an optional string: `None` and `""` are false. */
  predicate Truthy(name: Option<string>)
  {
    name.Some? && name.value != ""
  }

  /** The effect of one callback on the fields. */
  function Step(s: ParserState, e: Event): ParserState
  {
    match e
    case StartTag(tag, _) => if tag == "h1" then s.(inH1 := true) else s
    case EndTag(tag) => if tag == "h1" then s.(inH1 := false) else s
    case Data(d) => if s.inH1 && !Truthy(s.meetName) then s.(meetName := Some(Strip(d))) else s
  }

  /** The fields after the callbacks for `evs`, in order, starting from `s`. */
  function Run(s: ParserState, evs: seq<Event>): ParserState
  {
    if evs == [] then s else Step(Run(s, evs[..|evs| - 1]), evs[|evs| - 1])
  }

  class MeetNameParser {
    var meetName: Option<string>
    var inH1: bool

    function State(): ParserState
      reads this
    {
      ParserState(inH1, meetName)
    }

    constructor ()
      ensures State() == Initial
    {
      meetName := None;
      inH1 := false;
    }

    /** A start tag `h1` enters the heading; any other tag changes nothing. */
    method HandleStartTag(tag: string, attrs: seq<Attr>)
      modifies this
      ensures inH1 == (tag == "h1" || old(inH1))
      ensures meetName == old(meetName)
    {
      if tag == "h1" {
        inH1 := true;
      }
    }

    /** An end tag `h1` leaves the heading, however many `h1` start tags
        came before it; any other tag changes nothing. */
    method HandleEndTag(tag: string)
      modifies this
      ensures inH1 == (tag != "h1" && old(inH1))
      ensures meetName == old(meetName)
    {
      if tag == "h1" {
        inH1 := false;
      }
    }

    /** Inside a heading, while no non-empty name is held, the stripped
        chunk replaces the name; otherwise nothing changes. */
    method HandleData(data: string)
      modifies this
      ensures inH1 == old(inH1)
      ensures old(inH1) && !Truthy(old(meetName)) ==> meetName == Some(Strip(data))
      ensures !old(inH1) || Truthy(old(meetName)) ==> meetName == old(meetName)
    {
      if inH1 && !Truthy(meetName) {
        meetName := Some(Strip(data));
      }
    }

    /** Delivers the events of a document to the callbacks, in order. */
    method Feed(evs: seq<Event>)
      modifies this
      ensures State() == Run(old(State()), evs)
    {
      for i := 0 to |evs|
        invariant State() == Run(old(State()), evs[..i])
      {
        assert evs[..i + 1][..i] == evs[..i];
        match evs[i]
        case StartTag(tag, attrs) => HandleStartTag(tag, attrs);
        case EndTag(tag) => HandleEndTag(tag);
        case Data(d) => HandleData(d);
      }
      assert evs[..|evs|] == evs;
    }
  }

  // ---------------------------------------------------------------------
  // A reference description of what the parser captures, stated over the
  // whole event list rather than callback by callback.

  predicate IsH1Start(e: Event) { e.StartTag? && e.tag == "h1" }
  predicate IsH1End(e: Event) { e.EndTag? && e.tag == "h1" }

  /** After `evs`, the tokenizer is inside an `h1`: some `h1` start tag has
      no `h1` end tag after it. */
  predicate InsideH1(evs: seq<Event>)
  {
    exists i :: 0 <= i < |evs| && IsH1Start(evs[i]) &&
      forall j :: i < j < |evs| ==> !IsH1End(evs[j])
  }

  /** The data chunks that arrive while inside an `h1`, in order. */
  function H1Chunks(evs: seq<Event>): seq<string>
  {
    if evs == [] then []
    else
      var last := evs[|evs| - 1];
      H1Chunks(evs[..|evs| - 1]) + (if last.Data? && InsideH1(evs[..|evs| - 1]) then [last.data] else [])
  }

  /** The first chunk whose stripped text is not empty, stripped. */
  function FirstNamed(chunks: seq<string>): (r: Option<string>)
    ensures r.Some? ==> r.value != [] && IsStripped(r.value)
  {
    if chunks == [] then None
    else if Strip(chunks[0]) != [] then Some(Strip(chunks[0]))
    else FirstNamed(chunks[1..])
  }

  /** What the parser ends up holding, given the chunks met inside `h1`
      elements: nothing if there were none, else the first one that strips
      to a non-empty text, else the empty string. */
  function ExpectedMeetName(chunks: seq<string>): Option<string>
  {
    if FirstNamed(chunks).Some? then FirstNamed(chunks)
    else if chunks == [] then None
    else Some("")
  }

  lemma {:induction false} FirstNamedSnoc(chunks: seq<string>, d: string)
    ensures FirstNamed(chunks + [d]) ==
      if FirstNamed(chunks).Some? then FirstNamed(chunks)
      else if Strip(d) != [] then Some(Strip(d)) else None
  {
    if chunks != [] {
      assert (chunks + [d])[1..] == chunks[1..] + [d];
      FirstNamedSnoc(chunks[1..], d);
    } else {
      assert [d][1..] == [];
    }
  }

  /** The `inH1` field is true exactly when the events so far leave the
      tokenizer inside an `h1`. */
  lemma {:induction false} RunInH1(evs: seq<Event>)
    ensures Run(Initial, evs).inH1 <==> InsideH1(evs)
  {
    if evs != [] {
      var n := |evs| - 1;
      var pre := evs[..n];
      RunInH1(pre);
      if IsH1Start(evs[n]) {
        assert InsideH1(evs) by {
          assert IsH1Start(evs[n]);
        }
      } else if IsH1End(evs[n]) {
        // The closing tag at the end follows every earlier opening tag.
        forall i | 0 <= i < n
          ensures !(IsH1Start(evs[i]) && forall j :: i < j < |evs| ==> !IsH1End(evs[j]))
        {
          assert IsH1End(evs[n]);
        }
      } else {
        if InsideH1(evs) {
          var i :| 0 <= i < |evs| && IsH1Start(evs[i]) && forall j :: i < j < |evs| ==> !IsH1End(evs[j]);
          assert pre[i] == evs[i];
          assert InsideH1(pre);
        }
        if InsideH1(pre) {
          var i :| 0 <= i < |pre| && IsH1Start(pre[i]) && forall j :: i < j < |pre| ==> !IsH1End(pre[j]);
          assert evs[i] == pre[i];
          assert InsideH1(evs);
        }
      }
    }
  }

  /** The parser's name field agrees with the reference description. */
  lemma {:induction false} RunMeetName(evs: seq<Event>)
    ensures Run(Initial, evs).meetName == ExpectedMeetName(H1Chunks(evs))
  {
    if evs != [] {
      var n := |evs| - 1;
      var pre := evs[..n];
      RunMeetName(pre);
      RunInH1(pre);
      if evs[n].Data? && InsideH1(pre) {
        var c, d := H1Chunks(pre), evs[n].data;
        FirstNamedSnoc(c, d);
        assert H1Chunks(evs) == c + [d];
        if FirstNamed(c).None? {
          assert Run(Initial, evs).meetName == Some(Strip(d));
        }
      } else {
        assert H1Chunks(evs) == H1Chunks(pre) + [];
        ConcatEmpty(H1Chunks(pre));
      }
    }
  }

  lemma {:induction false} RunConcat(s: ParserState, a: seq<Event>, b: seq<Event>)
    ensures Run(s, a + b) == Run(Run(s, a), b)
  {
    if b != [] {
      var n := |b| - 1;
      assert (a + b)[..|a + b| - 1] == a + b[..n];
      RunConcat(s, a, b[..n]);
    } else {
      assert a + b == a;
    }
  }

  /** A name that is not empty is never replaced, whatever events follow. */
  lemma {:induction false} NameIsKept(s: ParserState, evs: seq<Event>)
    requires Truthy(s.meetName)
    ensures Run(s, evs).meetName == s.meetName
  {
    if evs != [] {
      NameIsKept(s, evs[..|evs| - 1]);
    }
  }

  /** First non-empty chunk wins: once the events `a` have produced a name
      that is not empty, the events `b` after them leave it alone. */
  lemma FirstNonEmptyWins(a: seq<Event>, b: seq<Event>)
    requires Truthy(Run(Initial, a).meetName)
    ensures Run(Initial, a + b).meetName == Run(Initial, a).meetName
  {
    RunConcat(Initial, a, b);
    NameIsKept(Run(Initial, a), b);
  }

  /** Whenever a name is held, it is the stripped text of one data chunk,
      a chunk that arrived while inside an `h1`; it therefore has no
      leading or trailing whitespace. */
  lemma {:induction false} NameIsOneStrippedChunk(evs: seq<Event>)
    requires Run(Initial, evs).meetName.Some?
    ensures IsStripped(Run(Initial, evs).meetName.value)
    ensures exists i :: 0 <= i < |evs| && evs[i].Data? && Run(Initial, evs[..i]).inH1 &&
                        Run(Initial, evs).meetName.value == Strip(evs[i].data)
  {
    var n := |evs| - 1;
    var pre := evs[..n];
    var name := Run(Initial, evs).meetName.value;
    if Run(Initial, evs).meetName == Run(Initial, pre).meetName {
      NameIsOneStrippedChunk(pre);
      var i :| 0 <= i < |pre| && pre[i].Data? && Run(Initial, pre[..i]).inH1 && name == Strip(pre[i].data);
      assert pre[..i] == evs[..i];
    } else {
      assert evs[n].Data? && name == Strip(evs[n].data);
    }
  }

  /** A heading delivered as one chunk names the page by that chunk,
      stripped. */
  lemma OneChunkHeading(attrs: seq<Attr>, d: string)
    ensures Run(Initial, [StartTag("h1", attrs), Data(d), EndTag("h1")]).meetName == Some(Strip(d))
  {
    var e1, e2, e3 := StartTag("h1", attrs), Data(d), EndTag("h1");
    assert [e1][..0] == [] && [e1, e2][..1] == [e1] && [e1, e2, e3][..2] == [e1, e2];
    assert Run(Initial, [e1]) == ParserState(true, None);
    assert Run(Initial, [e1, e2]) == ParserState(true, Some(Strip(d)));
  }

  /** Chunks are not joined: a heading split into two chunks keeps only
      the first, if it is not blank. */
  lemma SplitHeadingKeepsFirstChunk(a: string, b: string)
    requires Strip(a) != []
    ensures Run(Initial, [StartTag("h1", []), Data(a), Data(b), EndTag("h1")]).meetName == Some(Strip(a))
  {
    var e1, e2, e3, e4 := StartTag("h1", []), Data(a), Data(b), EndTag("h1");
    assert [e1][..0] == [] && [e1, e2][..1] == [e1] && [e1, e2, e3][..2] == [e1, e2];
    assert [e1, e2, e3, e4][..3] == [e1, e2, e3];
    assert Run(Initial, [e1]) == ParserState(true, None);
    assert Run(Initial, [e1, e2]) == ParserState(true, Some(Strip(a)));
    assert Run(Initial, [e1, e2, e3]) == ParserState(true, Some(Strip(a)));
  }

  /** A blank chunk stores the empty name, which a later chunk inside a
      heading still replaces. */
  lemma BlankChunkIsReplaced(w: string, b: string)
    requires Strip(w) == []
    ensures Run(Initial, [StartTag("h1", []), Data(w)]).meetName == Some("")
    ensures Run(Initial, [StartTag("h1", []), Data(w), Data(b)]).meetName == Some(Strip(b))
  {
    var e1, e2, e3 := StartTag("h1", []), Data(w), Data(b);
    assert [e1][..0] == [] && [e1, e2][..1] == [e1] && [e1, e2, e3][..2] == [e1, e2];
    assert Run(Initial, [e1]) == ParserState(true, None);
    assert Run(Initial, [e1, e2]) == ParserState(true, Some(""));
  }

  /** An `h1` with no text delivers no data, so no name is found. */
  lemma EmptyHeadingHasNoName()
    ensures Run(Initial, [StartTag("h1", []), EndTag("h1")]).meetName == None
  {
    assert [StartTag("h1", []), EndTag("h1")][..1] == [StartTag("h1", [])];
  }

  /** Running the parser on a document yields the reference name. */
  method ExtractMeetName(evs: seq<Event>) returns (name: Option<string>)
    ensures name == ExpectedMeetName(H1Chunks(evs))
  {
    var parser := new MeetNameParser();
    parser.Feed(evs);
    name := parser.meetName;
    RunMeetName(evs);
  }
}
