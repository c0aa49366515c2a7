/**
 Changelog sections: finding their headings, extracting one, and inserting a stub.
 Scanning functions work on the text still to be read; `bol` says whether it is read
 from the start of a line, which is all the multi-line `^` looks back for.
 */
module Changelog {
  import opened Prelude

  /** A heading match: how much text it covers, and the version it captured. */
  datatype Heading = Heading(length: nat, version: string)

  datatype Found = Found(skip: nat, heading: Heading)

  datatype Part = Patch | Minor

  // ---------------------------------------------------------------------
  // The heading pattern
  // ---------------------------------------------------------------------

  predicate IsVersionChar(c: char) {
    !IsSpace(c) && c != ']'
  }

  /** The longest run of version characters at the front of s. */
  function Run(s: string): (n: nat)
    ensures n <= |s|
    ensures forall k | 0 <= k < n :: IsVersionChar(s[k])
    ensures n < |s| ==> !IsVersionChar(s[n])
  {
    if s == "" || !IsVersionChar(s[0]) then 0 else 1 + Run(s[1..])
  }

  /** Exactly two hashes at the front. */
  predicate TwoHashes(s: string) {
    |s| >= 2 && s[0] == '#' && s[1] == '#' && !(|s| > 2 && s[2] == '#')
  }

  /** Whether a "[" at the front of s is taken as an opening bracket: only if a version
      character follows, otherwise the pattern backs up and reads it as the version. */
  predicate Brackets(s: string) {
    |s| >= 2 && s[0] == '[' && IsVersionChar(s[1])
  }

  /** The heading whose version starts where named, the rest of s, does. */
  function Capture(s: string, named: string): (m: Option<Heading>)
    requires |named| + 2 <= |s|
    ensures m.Some? ==> 3 <= m.value.length <= |s| && m.value.version != ""
  {
    var n := Run(named);
    if n == 0 then None
    else
      var after := |s| - |named| + n;
      var closed := after < |s| && s[after] == ']'
                 && (after + 1 == |s| || !IsVersionChar(s[after + 1]));
      Some(Heading(if closed then after + 1 else after, named[..n]))
  }

  /** Where the version starts once whitespace, even line ends, has been skipped. */
  function Opened(rest: string): (named: string)
    ensures |named| <= |rest|
  {
    if Brackets(rest) then rest[1..] else rest
  }

  /** The heading pattern matched at the front of s, which starts a line. */
  function Match(s: string): (m: Option<Heading>)
    ensures m.Some? ==> 3 <= m.value.length <= |s| && m.value.version != ""
  {
    if TwoHashes(s) then Capture(s, Opened(LStrip(s[2..]))) else None
  }

  /** The next heading. */
  function Find(s: string, bol: bool): (f: Option<Found>)
    ensures f.Some? ==> f.value.skip + f.value.heading.length <= |s| && f.value.heading.length >= 3
  {
    hide Match;
    if s == "" then None
    else if bol && Match(s).Some? then Some(Found(0, Match(s).value))
    else
      match Find(s[1..], s[0] == '\n')
      case None => None
      case Some(f) => Some(Found(f.skip + 1, f.heading))
  }

  /** A heading is found where it matches, and only at the start of a line. */
  lemma {:induction false} FoundAtLineStart(s: string, bol: bool)
    requires Find(s, bol).Some?
    ensures var f := Find(s, bol).value;
      && Match(s[f.skip..]) == Some(f.heading)
      && (f.skip == 0 ==> bol)
      && (f.skip > 0 ==> s[f.skip - 1] == '\n')
  {
    hide Match;
    if !(bol && Match(s).Some?) {
      FoundAtLineStart(s[1..], s[0] == '\n');
      var k := Find(s[1..], s[0] == '\n').value.skip;
      assert s[1..][k..] == s[k + 1..];
      if k > 0 {
        assert s[1..][k - 1] == s[k];
      }
    }
  }

  /** Text after the first line end. */
  function AfterLine(s: string): (r: string)
    ensures |r| <= |s|
  {
    if s == "" then "" else if s[0] == '\n' then s[1..] else AfterLine(s[1..])
  }

  /** The body of the section whose heading has just been read. */
  function SectionBody(rest: string): string {
    var start := |rest| - |AfterLine(rest)|;
    var end := match Find(rest, false) case None => |rest| case Some(f) => f.skip;
    if start <= end then Strip(rest[start..end]) else ""
  }

  /** The body of the first section of that version, or "". */
  function Extract(s: string, bol: bool, version: string): string
    decreases |s|
  {
    match Find(s, bol)
    case None => ""
    case Some(f) =>
      var rest := s[f.skip + f.heading.length..];
      if f.heading.version == version then SectionBody(rest) else Extract(rest, false, version)
  }

  /** Some heading captures that version. */
  predicate HasSection(s: string, bol: bool, version: string)
    decreases |s|
  {
    match Find(s, bol)
    case None => false
    case Some(f) =>
      f.heading.version == version || HasSection(s[f.skip + f.heading.length..], false, version)
  }

  // ---------------------------------------------------------------------
  // extract_changelog_section, by position over the list of matches
  // ---------------------------------------------------------------------

  /** A match as finditer yields it. */
  datatype Span = Span(start: nat, end: nat, version: string)

  /** All matches, reading on from position at; bol as for the text from there. */
  function AllMatches(text: string, at: nat, bol: bool): seq<Span>
    requires at <= |text|
    decreases |text| - at
  {
    match Find(text[at..], bol)
    case None => []
    case Some(f) =>
      var start := at + f.skip;
      var end := start + f.heading.length;
      [Span(start, end, f.heading.version)] + AllMatches(text, end, false)
  }

  /** text.find("\n", at), with None for -1. */
  method FindNewline(text: string, at: nat) returns (pos: Option<nat>)
    requires at <= |text|
    ensures |AfterLine(text[at..])| == if pos.Some? then |text| - pos.value - 1 else 0
    ensures pos.Some? ==> at <= pos.value < |text|
  {
    var p := at;
    while p < |text|
      invariant at <= p <= |text|
      invariant AfterLine(text[at..]) == AfterLine(text[p..])
    {
      if text[p] == '\n' {
        return Some(p);
      }
      assert text[p..][1..] == text[p + 1..];
      p := p + 1;
    }
    pos := None;
  }

  /** The first of the matches is the next heading; the others follow its end. */
  lemma MatchesInOrder(text: string, at: nat, bol: bool, version: string)
    requires at <= |text|
    ensures var matches := AllMatches(text, at, bol);
      if matches == [] then Extract(text[at..], bol, version) == ""
      else
        var m := matches[0];
        && at <= m.start <= m.end <= |text|
        && matches[1..] == AllMatches(text, m.end, false)
        && m.start - at == Find(text[at..], bol).value.skip
        && Extract(text[at..], bol, version) ==
             if m.version == version then SectionBody(text[m.end..])
             else Extract(text[m.end..], false, version)
  {
    hide Find, SectionBody;
    var found := Find(text[at..], bol);
    if found.Some? {
      var k := found.value.skip + found.value.heading.length;
      assert text[at..][k..] == text[at + k..];
    }
  }

  method ExtractChangelogSection(text: string, version: string) returns (body: string)
    ensures body == Extract(text, true, version)
  {
    var headings := AllMatches(text, 0, true);
    assert text[0..] == text;
    ghost var at: nat, bol: bool := 0, true;
    for index := 0 to |headings|
      invariant at <= |text| && headings[index..] == AllMatches(text, at, bol)
      invariant Extract(text, true, version) == Extract(text[at..], bol, version)
    {
      hide Find, AllMatches, Extract;
      var heading := headings[index];
      MatchesInOrder(text, at, bol, version);
      assert headings[index..][1..] == headings[index + 1..];
      MatchesInOrder(text, heading.end, false, version);
      if heading.version == version {
        body := BodyBetween(text, heading, headings[index + 1..]);
        return;
      }
      at, bol := heading.end, false;
    }
    MatchesInOrder(text, at, bol, version);
    body := "";
  }

  /** The slice from the line after a heading to the next heading, or to the end. */
  method BodyBetween(text: string, heading: Span, later: seq<Span>) returns (body: string)
    requires heading.end <= |text| && later == AllMatches(text, heading.end, false)
    ensures body == SectionBody(text[heading.end..])
  {
    hide Find, AllMatches, AfterLine, Extract, Strip;
    ghost var rest := text[heading.end..];
    MatchesInOrder(text, heading.end, false, "");
    NextSectionStartsLater(rest);
    NextStart(text, heading.end);
    var newline := FindNewline(text, heading.end);
    var start := if newline.None? then |text| else newline.value + 1;
    var end := if later != [] then later[0].start else |text|;
    SliceOfSuffix(text, heading.end, start - heading.end, end - heading.end);
    body := Strip(text[start..end]);
  }

  lemma NextStart(text: string, at: nat)
    requires at <= |text|
    ensures AllMatches(text, at, false) == [] <==> Find(text[at..], false) == None
  {
    hide Find;
  }

  lemma {:induction false} NewlineBefore(s: string, k: nat)
    requires k < |s| && s[k] == '\n'
    ensures |s| - |AfterLine(s)| <= k + 1
  {
    if s[0] != '\n' {
      NewlineBefore(s[1..], k - 1);
    }
  }

  /** A section's body starts no later than the next heading. */
  lemma NextSectionStartsLater(rest: string)
    ensures Find(rest, false).Some? ==> |rest| - |AfterLine(rest)| <= Find(rest, false).value.skip
  {
    hide Find, Match, AfterLine;
    if Find(rest, false).Some? {
      FoundAtLineStart(rest, false);
      NewlineBefore(rest, Find(rest, false).value.skip - 1);
    }
  }

  // ---------------------------------------------------------------------
  // ensure_changelog_section
  // ---------------------------------------------------------------------

  /** The guard's pattern at the front of s: the version only has to begin the heading. */
  predicate Starts(s: string, version: string) {
    TwoHashes(s) &&
    var rest := LStrip(s[2..]);
    version <= rest || (rest != "" && rest[0] == '[' && version <= rest[1..])
  }

  /** re.search of the guard's pattern. */
  predicate Present(s: string, bol: bool, version: string) {
    s != "" && ((bol && Starts(s, version)) || Present(s[1..], s[0] == '\n', version))
  }

  function Capitalized(part: Part): string {
    match part case Patch => "Patch" case Minor => "Minor"
  }

  function StubBody(part: Part): string {
    "### Changed\n\n- " + Capitalized(part) + " version bump."
  }

  function Stub(version: string, today: string, part: Part): string {
    "## [" + version + "] - " + today + "\n\n" + StubBody(part) + "\n"
  }

  function DropNewlines(s: string): (r: string)
    ensures r <= s
  {
    if s != "" && s[|s| - 1] == '\n' then DropNewlines(s[..|s| - 1]) else s
  }

  /** The text with the stub above its first section, or at its end when it has none. */
  function Inserted(text: string, version: string, today: string, part: Part): string {
    match Find(text, true)
    case Some(f) => text[..f.skip] + Stub(version, today, part) + "\n" + text[f.skip..]
    case None => DropNewlines(text) + "\n\n" + Stub(version, today, part)
  }

  /** What the file holds afterwards; a missing file reads as a bare title. */
  function Ensured(text: string, version: string, today: string, part: Part): string {
    if Present(text, true, version) then text else Inserted(text, version, today, part)
  }

  method EnsureChangelogSection(file: Option<string>, version: string, today: string, part: Part)
    returns (modified: bool, text: string)
    ensures var before := if file.Some? then file.value else "# Changelog\n";
      && text == Ensured(before, version, today, part)
      && (modified <==> !Present(before, true, version))
  {
    hide Present, Find, DropNewlines;
    text := if file.Some? then file.value else "# Changelog\n";
    if Present(text, true, version) {
      return false, text;
    }
    var stub := "## [" + version + "] - " + today + "\n\n"
              + ("### Changed\n\n- " + Capitalized(part) + " version bump.") + "\n";
    var first := Find(text, true);
    if first.Some? {
      text := text[..first.value.skip] + stub + "\n" + text[first.value.skip..];
    } else {
      text := DropNewlines(text) + "\n\n" + stub;
    }
    modified := true;
  }
}
