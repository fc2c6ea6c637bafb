/**
 * The few Python string operations the homepage generator relies on,
 * restricted to ASCII: `str.strip()`, `str.endswith`, `str.replace` of one
 * character by another, `str.title()` and the root half of
 * `os.path.splitext`.
 */
module PyStr {

  /** ASCII characters for which Python's `str.isspace()` holds:
      tab, line feed, vertical tab, form feed, carriage return,
      the four separators 0x1C-0x1F, and space. */
  predicate IsSpace(c: char)
  {
    c == ' ' || ('\t' <= c <= '\r') || ('\U{1C}' <= c <= '\U{1F}')
  }

  predicate IsUpper(c: char) { 'A' <= c <= 'Z' }
  predicate IsLower(c: char) { 'a' <= c <= 'z' }

  /** The ASCII cased characters: the only ones `title()` changes or
      treats as part of a word. */
  predicate IsLetter(c: char) { IsUpper(c) || IsLower(c) }

  function ToUpper(c: char): (r: char)
    ensures IsLetter(r) <==> IsLetter(c)
    ensures ToLower(r) == ToLower(c)
    ensures IsLetter(c) ==> IsUpper(r)
    ensures !IsLower(c) ==> r == c
  {
    if IsLower(c) then (c as int - 32) as char else c
  }

  function ToLower(c: char): (r: char)
    ensures IsLetter(r) <==> IsLetter(c)
    ensures IsLetter(c) ==> IsLower(r)
    ensures !IsUpper(c) ==> r == c
  {
    if IsUpper(c) then (c as int + 32) as char else c
  }

  /** A string with no leading and no trailing whitespace. */
  predicate IsStripped(s: string)
  {
    s == [] || (!IsSpace(s[0]) && !IsSpace(s[|s| - 1]))
  }

  /** `s.strip()`: `s` without its leading and trailing whitespace. */
  function Strip(s: string): (r: string)
    ensures IsStripped(r)
    ensures |r| <= |s|
  {
    if s != [] && IsSpace(s[0]) then Strip(s[1..])
    else if s != [] && IsSpace(s[|s| - 1]) then Strip(s[..|s| - 1])
    else s
  }

  /** The number of whitespace characters `s` starts with. */
  function LeadingSpaces(s: string): (n: nat)
    ensures n <= |s|
  {
    if s != [] && IsSpace(s[0]) then 1 + LeadingSpaces(s[1..]) else 0
  }

  /** `strip()` keeps a contiguous middle part of `s`, and everything it
      drops on either side is whitespace; so it yields the empty string
      exactly when `s` is all whitespace. */
  lemma {:induction false} StripSpec(s: string)
    ensures var lo := LeadingSpaces(s);
      lo + |Strip(s)| <= |s| && Strip(s) == s[lo..lo + |Strip(s)|] &&
      (forall i :: 0 <= i < lo ==> IsSpace(s[i])) &&
      (forall i :: lo + |Strip(s)| <= i < |s| ==> IsSpace(s[i]))
    ensures Strip(s) == [] <==> forall i :: 0 <= i < |s| ==> IsSpace(s[i])
  {
    if s != [] && IsSpace(s[0]) {
      StripSpec(s[1..]);
    } else if s != [] && IsSpace(s[|s| - 1]) {
      var t := s[..|s| - 1];
      StripSpec(t);
      assert LeadingSpaces(s) == 0 && LeadingSpaces(t) == 0;
    }
  }

  /** `s.endswith(suffix)`. */
  predicate EndsWith(s: string, suffix: string)
  {
    |suffix| <= |s| && s[|s| - |suffix|..] == suffix
  }

  /** `s.replace(from, to)` where both are single characters: every `from`
      becomes `to`, every other character stays. */
  function ReplaceChar(s: string, from: char, to: char): (r: string)
    ensures |r| == |s|
    ensures forall i :: 0 <= i < |s| ==> r[i] == (if s[i] == from then to else s[i])
    ensures from != to ==> from !in r
  {
    if s == [] then []
    else [if s[0] == from then to else s[0]] + ReplaceChar(s[1..], from, to)
  }

  /** How `title()` maps one character, given whether the character before
      it is cased: a letter starting a word is upper-cased, a letter
      inside a word is lower-cased, anything else is left alone. */
  function TitleChar(c: char, afterLetter: bool): char
  {
    if afterLetter then ToLower(c) else ToUpper(c)
  }

  function TitleFrom(s: string, afterLetter: bool): string
  {
    if s == [] then []
    else [TitleChar(s[0], afterLetter)] + TitleFrom(s[1..], IsLetter(s[0]))
  }

  /** `s.title()` on ASCII text. */
  function Title(s: string): string
  {
    TitleFrom(s, false)
  }

  lemma {:induction false} TitleFromAt(s: string, afterLetter: bool)
    ensures |TitleFrom(s, afterLetter)| == |s|
    ensures forall i :: 0 <= i < |s| ==>
      TitleFrom(s, afterLetter)[i] == TitleChar(s[i], if i == 0 then afterLetter else IsLetter(s[i - 1]))
  {
    if s != [] {
      TitleFromAt(s[1..], IsLetter(s[0]));
      forall i | 1 <= i < |s|
        ensures TitleFrom(s, afterLetter)[i] == TitleChar(s[i], IsLetter(s[i - 1]))
      {
        assert TitleFrom(s, afterLetter)[i] == TitleFrom(s[1..], IsLetter(s[0]))[i - 1];
      }
    }
  }

  /** `title()` keeps the length; each character is upper-cased when it
      starts a word (no letter just before it), lower-cased otherwise, and
      characters that are not letters are unchanged. */
  lemma TitleAt(s: string)
    ensures |Title(s)| == |s|
    ensures forall i :: 0 <= i < |s| ==>
      Title(s)[i] == (if i == 0 || !IsLetter(s[i - 1]) then ToUpper(s[i]) else ToLower(s[i]))
    ensures forall i :: 0 <= i < |s| ==> (IsLetter(Title(s)[i]) <==> IsLetter(s[i]))
    ensures forall i :: 0 <= i < |s| && !IsLetter(s[i]) ==> Title(s)[i] == s[i]
  {
    TitleFromAt(s, false);
    forall i | 0 <= i < |s|
      ensures IsLetter(Title(s)[i]) <==> IsLetter(s[i])
      ensures !IsLetter(s[i]) ==> Title(s)[i] == s[i]
    {
      var after := if i == 0 then false else IsLetter(s[i - 1]);
      assert Title(s)[i] == TitleChar(s[i], after);
    }
  }

  /** Position of the last `c` in `s`, or -1 (Python's `s.rfind(c)`). */
  function RFind(s: string, c: char): (r: int)
    ensures -1 <= r < |s|
    ensures r >= 0 ==> s[r] == c
    ensures forall i :: r < i < |s| ==> s[i] != c
  {
    if s == [] then -1
    else if s[|s| - 1] == c then |s| - 1
    else RFind(s[..|s| - 1], c)
  }

  predicate AllDots(s: string)
  {
    forall i :: 0 <= i < |s| ==> s[i] == '.'
  }

  /** `os.path.splitext(name)[0]` for a name without a path separator:
      the text before the last dot, unless everything before that dot is
      dots (a leading-dot name such as `.html` has no extension). */
  function SplitExtRoot(name: string): (r: string)
    ensures |r| <= |name| && r == name[..|r|]
    ensures name != [] ==> r != []
  {
    var dot := RFind(name, '.');
    if dot >= 0 && !AllDots(name[..dot]) then name[..dot] else name
  }

  /** For a name ending in `.html`, the root is the name without `.html`
      exactly when some character before `.html` is not a dot; otherwise
      it is the whole name. */
  lemma SplitExtRootOfHtml(name: string)
    requires EndsWith(name, ".html")
    ensures !AllDots(name[..|name| - 5]) ==> SplitExtRoot(name) == name[..|name| - 5]
    ensures AllDots(name[..|name| - 5]) ==> SplitExtRoot(name) == name
  {
    assert name[|name| - 5] == '.';
    assert forall i :: |name| - 5 < i < |name| ==> name[i] == ".html"[i - (|name| - 5)];
  }
}
