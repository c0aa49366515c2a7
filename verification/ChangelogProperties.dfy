/** Inserting a stub adds its section and leaves every other section as it was: exactly
    when the text does not end in a dangling heading that would swallow the stub's. */
module ChangelogProperties {
  import opened Prelude
  import opened Changelog

  /** A version as bump computes it, and many more: no whitespace, no closing bracket. */
  ghost predicate VersionText(v: string) {
    v != "" && v[0] != '#' && forall k | 0 <= k < |v| :: IsVersionChar(v[k])
  }

  ghost predicate OneLine(s: string) {
    forall k | 0 <= k < |s| :: s[k] != '\n'
  }

  /** Two hashes and then only whitespace, up to the end of the text. */
  predicate Bare(s: string) {
    |s| >= 2 && s[0] == '#' && s[1] == '#' && LStrip(s[2..]) == ""
  }

  /** Some line starts such an end of the text. */
  predicate Dangling(s: string, bol: bool) {
    s != "" && ((bol && Bare(s)) || Dangling(s[1..], s[0] == '\n'))
  }

  // ---------------------------------------------------------------------
  // A heading pattern reads no further than its line needs
  // ---------------------------------------------------------------------

  lemma {:induction false} LStripOfAppend(a: string, b: string)
    ensures LStrip(a + b) == if LStrip(a) == "" then LStrip(b) else LStrip(a) + b
  {
    if a == "" {
      assert a + b == b;
    } else if IsSpace(a[0]) {
      assert (a + b)[1..] == a[1..] + b;
      LStripOfAppend(a[1..], b);
    }
  }

  /** Whether a heading matches at the front, without saying which. */
  lemma MatchesWhenNamed(s: string)
    ensures Match(s).Some? <==> TwoHashes(s) && LStrip(s[2..]) != "" && LStrip(s[2..])[0] != ']'
  {
    if TwoHashes(s) {
      var rest := LStrip(s[2..]);
      hide LStrip;
      var named := Opened(rest);
      assert Run(named) == 0 <==> named == "" || !IsVersionChar(named[0]);
    }
  }

  /** Before a line end, what follows matters only to a bare pair of hashes, which then
      takes whatever comes next for its version. */
  lemma MatchBeforeLineEnd(a: string, b: string)
    requires a != "" && a[|a| - 1] == '\n'
    ensures Match(a + b).Some? <==>
      if Bare(a) then LStrip(b) != "" && LStrip(b)[0] != ']' else Match(a).Some?
  {
    hide Match, LStrip;
    MatchesWhenNamed(a + b);
    MatchesWhenNamed(a);
    if |a| >= 2 {
      SameHashes(a, b);
      LStripOfAppend(a[2..], b);
    }
  }

  lemma SameHashes(a: string, b: string)
    requires |a| >= 2 && a[|a| - 1] == '\n'
    ensures (a + b)[2..] == a[2..] + b && (TwoHashes(a + b) <==> TwoHashes(a))
    ensures Bare(a) <==> TwoHashes(a) && LStrip(a[2..]) == ""
  {
  }

  // ---------------------------------------------------------------------
  // Finding past text without headings
  // ---------------------------------------------------------------------

  ghost predicate EndsLine(s: string) {
    s != "" ==> s[|s| - 1] == '\n'
  }

  function Shifted(k: nat, f: Option<Found>): Option<Found> {
    if f.Some? then Some(Found(f.value.skip + k, f.value.heading)) else None
  }

  lemma FindStep(s: string, bol: bool)
    requires s != "" && !(bol && Match(s).Some?)
    ensures Find(s, bol) == Shifted(1, Find(s[1..], s[0] == '\n'))
  {
    hide Match;
  }

  lemma DanglingStep(s: string, bol: bool)
    requires s != ""
    ensures Dangling(s, bol) <==> (bol && Bare(s)) || Dangling(s[1..], s[0] == '\n')
  {
    hide Bare;
  }

  lemma NoMatchAtFront(s: string, bol: bool)
    requires s != "" && Find(s, bol) == None
    ensures !(bol && Match(s).Some?)
  {
    hide Match;
  }

  /** Lines without a heading, and not ending in a bare pair of hashes, are read past. */
  lemma {:induction false} FindSkips(a: string, bol: bool, b: string)
    requires a != "" && EndsLine(a) && Find(a, bol) == None && !Dangling(a, bol)
    ensures Find(a + b, bol) == Shifted(|a|, Find(b, true))
  {
    hide Match, Bare, Find, Dangling, EndsLine;
    FrontStaysPlain(a, bol, b);
    FindStep(a + b, bol);
    assert (a + b)[1..] == a[1..] + b;
    if a[1..] == "" {
      assert a[1..] + b == b;
    } else {
      FindSkips(a[1..], a[0] == '\n', b);
    }
  }

  lemma FrontStaysPlain(a: string, bol: bool, b: string)
    requires a != "" && EndsLine(a) && Find(a, bol) == None && !Dangling(a, bol)
    ensures !(bol && Match(a + b).Some?)
    ensures Find(a[1..], a[0] == '\n') == None && !Dangling(a[1..], a[0] == '\n')
    ensures EndsLine(a[1..]) && (a[1..] == "" ==> a[0] == '\n')
  {
    EndsLineTail(a);
    hide Match, Bare, Find, Dangling, EndsLine;
    NoMatchAtFront(a, bol);
    FindStep(a, bol);
    DanglingStep(a, bol);
    MatchBeforeLineEnd(a, b);
  }

  lemma EndsLineTail(a: string)
    requires a != "" && EndsLine(a)
    ensures EndsLine(a[1..]) && (a[1..] == "" ==> a[0] == '\n')
  {
  }

  /** The text before the first heading is of that kind. */
  lemma {:induction false} PrefixHasNone(a: string, b: string, bol: bool)
    requires Find(a + b, bol).Some? && Find(a + b, bol).value.skip == |a| && Match(b).Some?
    ensures EndsLine(a) && Find(a, bol) == None && !Dangling(a, bol)
    ensures a == "" ==> bol
  {
    hide Match, Bare, Find, Dangling;
    if a == "" {
      assert a + b == b;
      FoundAtLineStart(b, bol);
      NothingInNewlines("", bol);
    } else {
      assert (a + b)[1..] == a[1..] + b;
      NoEarlierMatch(a + b, bol);
      FindStep(a + b, bol);
      PrefixHasNone(a[1..], b, a[0] == '\n');
      NoMatchBefore(a, b, bol);
      FindStep(a, bol);
      DanglingStep(a, bol);
    }
  }

  lemma NoMatchBefore(a: string, b: string, bol: bool)
    requires a != "" && EndsLine(a) && Match(b).Some?
    requires !(bol && Match(a + b).Some?)
    ensures !(bol && Match(a).Some?) && !(bol && Bare(a))
  {
    hide Match, Bare;
    HeadingStartsWithHash(b);
    MatchBeforeLineEnd(a, b);
  }

  lemma NoEarlierMatch(s: string, bol: bool)
    requires Find(s, bol).Some? && Find(s, bol).value.skip > 0
    ensures !(bol && Match(s).Some?)
  {
    hide Match;
  }

  lemma HeadingStartsWithHash(b: string)
    requires Match(b).Some?
    ensures LStrip(b) == b && b != "" && b[0] == '#'
  {
    hide Capture, Opened;
    LStripKeeps(b);
  }

  ghost predicate Newlines(n: string) {
    forall k | 0 <= k < |n| :: n[k] == '\n'
  }

  lemma {:induction false} NothingInNewlines(n: string, bol: bool)
    requires Newlines(n)
    ensures Find(n, bol) == None && !Dangling(n, bol)
  {
    if n != "" {
      NothingInNewlines(n[1..], true);
      assert !TwoHashes(n);
      hide Match;
      MatchesWhenNamed(n);
    }
  }

  lemma FrontIgnoresNewlines(r: string, n: string)
    requires r != "" && Newlines(n)
    ensures Match(r + n).Some? <==> Match(r).Some?
    ensures Bare(r + n) <==> Bare(r)
  {
    hide Match, LStrip;
    MatchesWhenNamed(r + n);
    MatchesWhenNamed(r);
    LStripOfNewlines(n);
    if |r| >= 2 {
      assert (r + n)[2..] == r[2..] + n;
      LStripOfAppend(r[2..], n);
    }
  }

  lemma {:induction false} LStripOfNewlines(n: string)
    requires Newlines(n)
    ensures LStrip(n) == ""
  {
    if n != "" {
      LStripOfNewlines(n[1..]);
    }
  }

  /** Blank lines at the end of a text hide and reveal no heading. */
  lemma {:induction false} TrailingNewlines(r: string, n: string, bol: bool)
    requires Newlines(n)
    ensures Find(r + n, bol) == None <==> Find(r, bol) == None
    ensures Dangling(r + n, bol) <==> Dangling(r, bol)
  {
    hide Match, Bare;
    if r == "" {
      assert r + n == n;
      NothingInNewlines(n, bol);
    } else {
      assert (r + n)[1..] == r[1..] + n;
      FrontIgnoresNewlines(r, n);
      TrailingNewlines(r[1..], n, r[0] == '\n');
    }
  }

  lemma {:induction false} DroppedAreNewlines(s: string)
    ensures Newlines(s[|DropNewlines(s)|..])
  {
    if s != "" && s[|s| - 1] == '\n' {
      var front := s[..|s| - 1];
      DroppedAreNewlines(front);
      assert s[|DropNewlines(s)|..] == front[|DropNewlines(s)|..] + "\n";
    }
  }

  // ---------------------------------------------------------------------
  // The stub
  // ---------------------------------------------------------------------

  function Block(part: Part): string {
    "\n" + StubBody(part) + "\n"
  }

  /** What follows the stub's heading. */
  function AfterHead(today: string, part: Part): string {
    " - " + today + "\n" + Block(part)
  }

  lemma {:induction false} RunOf(v: string, b: string)
    requires forall k | 0 <= k < |v| :: IsVersionChar(v[k])
    requires b != "" ==> !IsVersionChar(b[0])
    ensures Run(v + b) == |v|
  {
    if v == "" {
      assert v + b == b;
    } else {
      assert (v + b)[1..] == v[1..] + b;
      RunOf(v[1..], b);
    }
  }

  lemma BracketedHead(s: string, named: string, v: string, b: string)
    requires VersionText(v) && named == v + ("]" + b) && s == "##" + (" [" + named)
    requires b != "" && !IsVersionChar(b[0])
    ensures Match(s) == Some(Heading(|v| + 5, v))
  {
    hide LStrip, Run, Brackets, VersionText, Match, TwoHashes, IsVersionChar;
    VersionRun(v, b);
    BracketedSlices(s, named, v, b);
    LStripOneBlank(s[2..]);
    BracketOpens(named, v, b);
    MatchBracketed(s, named, |v|, |v| + 4);
  }

  lemma BracketedSlices(s: string, named: string, v: string, b: string)
    requires named == v + ("]" + b) && s == "##" + (" [" + named) && b != ""
    ensures TwoHashes(s) && s[2] == ' ' && s[3] == '[' && !IsSpace('[')
    ensures s[2..][1..] == "[" + named && s[2..][0] == ' ' && s[2..][1] == '['
    ensures |s| == |v| + |b| + 5 && s[|v| + 4] == ']' && s[|v| + 5] == b[0]
  {
    assert s[2..] == " [" + named;
  }

  lemma MatchBracketed(s: string, named: string, n: nat, after: nat)
    requires TwoHashes(s) && LStrip(s[2..]) == "[" + named && Brackets("[" + named)
    requires 0 < n == Run(named) < |named| && |named| + 2 <= |s| && after == |s| - |named| + n < |s| - 1
    requires s[after] == ']' && !IsVersionChar(s[after + 1])
    ensures Match(s) == Some(Heading(after + 1, named[..n]))
  {
    hide LStrip, Run, Brackets, IsVersionChar, TwoHashes, Capture;
    OpenedBracket(named);
    CaptureClosed(s, named, n, after);
  }

  lemma OpenedBracket(named: string)
    requires Brackets("[" + named)
    ensures Opened("[" + named) == named
  {
  }

  lemma CaptureClosed(s: string, named: string, n: nat, after: nat)
    requires 0 < n == Run(named) < |named| && |named| + 2 <= |s| && after == |s| - |named| + n < |s| - 1
    requires s[after] == ']' && !IsVersionChar(s[after + 1])
    ensures Capture(s, named) == Some(Heading(after + 1, named[..n]))
  {
    hide Run, IsVersionChar;
  }

  lemma VersionRun(v: string, b: string)
    requires VersionText(v)
    ensures Run(v + ("]" + b)) == |v| > 0
  {
    hide IsVersionChar;
    assert !IsVersionChar(']') by {
      NoClosingBracket();
    }
    RunOf(v, "]" + b);
  }

  lemma NoClosingBracket()
    ensures !IsVersionChar(']')
  {
  }

  lemma BracketOpens(named: string, v: string, b: string)
    requires VersionText(v) && named == v + ("]" + b)
    ensures Brackets("[" + named) && ("[" + named)[1..] == named && named[..|v|] == v
  {
  }

  lemma LStripOneBlank(s: string)
    requires |s| >= 2 && s[0] == ' ' && !IsSpace(s[1])
    ensures LStrip(s) == s[1..]
  {
  }

  lemma StubHead(version: string, b: string)
    requires VersionText(version)
    requires b != "" && !IsVersionChar(b[0])
    ensures Match("## [" + version + "]" + b) == Some(Heading(|version| + 5, version))
    ensures ("## [" + version + "]" + b)[|version| + 5..] == b
  {
    var s, named := "## [" + version + "]" + b, version + ("]" + b);
    assert s == "##" + (" [" + named);
    hide Match;
    BracketedHead(s, named, version, b);
  }

  lemma StubParts(version: string, today: string, part: Part)
    ensures Stub(version, today, part) == "## [" + version + "]" + AfterHead(today, part)
  {
  }

  /** A line that opens no heading adds none to what follows it. */
  lemma {:induction false} LineHasNone(line: string, rest: string, bol: bool)
    requires OneLine(line)
    requires bol ==> !TwoHashes(line + "\n" + rest)
    ensures Find(line + "\n" + rest, bol) == None <==> Find(rest, true) == None
    ensures Dangling(line + "\n" + rest, bol) ==> Dangling(rest, true)
  {
    var s := line + "\n" + rest;
    if line == "" {
      assert s[1..] == rest && !TwoHashes(s);
    } else {
      assert s[1..] == line[1..] + "\n" + rest;
      LineHasNone(line[1..], rest, false);
    }
    hide Match;
    MatchesWhenNamed(s);
  }

  lemma AfterHeadHasNone(today: string, part: Part)
    requires OneLine(today)
    ensures Find(AfterHead(today, part), false) == None && !Dangling(AfterHead(today, part), false)
  {
    hide Find, Dangling;
    NothingInNewlines("", true);
    var bullet := "- " + Capitalized(part) + " version bump.";
    var l1 := bullet + "\n" + "";
    LineHasNone(bullet, "", true);
    var l2 := "" + "\n" + l1;
    LineHasNone("", l1, true);
    var l3 := "### Changed" + "\n" + l2;
    LineHasNone("### Changed", l2, true);
    var l4 := "" + "\n" + l3;
    LineHasNone("", l3, true);
    LineHasNone(" - " + today, l4, false);
    BlockLines(part);
  }

  lemma BlockLines(part: Part)
    ensures var bullet := "- " + Capitalized(part) + " version bump.";
      Block(part) == "" + "\n" + ("### Changed" + "\n" + ("" + "\n" + (bullet + "\n" + "")))
  {
  }

  // ---------------------------------------------------------------------
  // The stub's own section
  // ---------------------------------------------------------------------

  /** The text from the stub's heading on, when more follows the stub. */
  lemma StubIsFound(version: string, today: string, part: Part, z: string)
    requires VersionText(version)
    ensures var s := Stub(version, today, part) + z;
      && Find(s, true) == Some(Found(0, Heading(|version| + 5, version)))
      && s[|version| + 5..] == AfterHead(today, part) + z
  {
    var s := Stub(version, today, part) + z;
    StubParts(version, today, part);
    assert s == "## [" + version + "]" + (AfterHead(today, part) + z);
    hide AfterHead, Stub, Match;
    AfterHeadStartsBlank(today, part, z);
    StubHead(version, AfterHead(today, part) + z);
  }

  lemma AfterHeadStartsBlank(today: string, part: Part, z: string)
    ensures AfterHead(today, part) + z != "" && !IsVersionChar((AfterHead(today, part) + z)[0])
  {
  }

  lemma {:induction false} AfterLineOf(line: string, rest: string)
    requires OneLine(line)
    ensures AfterLine(line + "\n" + rest) == rest
  {
    var s := line + "\n" + rest;
    if line == "" {
      assert s[1..] == rest;
    } else {
      assert s[1..] == line[1..] + "\n" + rest;
      AfterLineOf(line[1..], rest);
    }
  }

  lemma {:induction false} RStripOfAppend(a: string, b: string)
    requires AllSpace(b) && a != "" && !IsSpace(a[|a| - 1])
    ensures RStrip(a + b) == a
  {
    if b == "" {
      assert a + b == a;
    } else {
      assert (a + b)[..|a + b| - 1] == a + b[..|b| - 1];
      RStripOfAppend(a, b[..|b| - 1]);
    }
  }

  lemma StripAround(a: string, x: string, b: string)
    requires AllSpace(a) && AllSpace(b) && Trimmed(x) && x != ""
    ensures Strip(a + x + b) == x
  {
    hide LStrip, RStrip, IsSpace;
    LStripOfSpace(a);
    LStripOfAppend(a, x + b);
    LStripKeeps(x + b);
    RStripOfAppend(x, b);
    assert a + x + b == a + (x + b);
  }

  lemma {:induction false} LStripOfSpace(a: string)
    requires AllSpace(a)
    ensures LStrip(a) == ""
  {
    if a != "" {
      LStripOfSpace(a[1..]);
    }
  }

  /** The stub's body is its text, whether the file ends there or a blank line and the
      next heading follow. */
  lemma StubSection(today: string, part: Part, gap: string, z: string)
    requires OneLine(today) && Newlines(gap)
    requires Find(z, true) == None ==> z == ""
    requires Find(z, true).Some? ==> Find(z, true).value.skip == 0
    ensures SectionBody(AfterHead(today, part) + (gap + z)) == StubBody(part)
  {
    hide Find, AfterLine, Strip, StubBody;
    var rest := AfterHead(today, part) + (gap + z);
    var line := " - " + today;
    NextAfterStub(today, part, gap, z);
    assert rest == line + "\n" + (Block(part) + (gap + z));
    AfterLineOf(line, Block(part) + (gap + z));
    var start, end := |line| + 1, |AfterHead(today, part)| + |gap|;
    assert rest[start..end] == "\n" + StubBody(part) + ("\n" + gap) by {
      assert rest == (line + "\n") + (("\n" + StubBody(part) + ("\n" + gap)) + z);
    }
    StubBodyIsTrimmed(part);
    NewlinesAreSpace("\n" + gap);
    StripAround("\n", StubBody(part), "\n" + gap);
  }

  lemma NewlinesAreSpace(n: string)
    requires Newlines(n)
    ensures AllSpace(n) && AllSpace("\n")
  {
  }

  lemma StubBodyIsTrimmed(part: Part)
    ensures StubBody(part) != "" && Trimmed(StubBody(part))
  {
  }

  /** The next heading after the stub is the one that follows its text. */
  lemma NextAfterStub(today: string, part: Part, gap: string, z: string)
    requires OneLine(today) && Newlines(gap)
    ensures Find(AfterHead(today, part) + (gap + z), false)
         == Shifted(|AfterHead(today, part)| + |gap|, Find(z, true))
  {
    hide AfterHead, Find, Dangling, EndsLine, Newlines, OneLine;
    AfterHeadHasNone(today, part);
    AfterHeadEndsLine(today, part, gap);
    TrailingNewlines(AfterHead(today, part), gap, false);
    FindSkips(AfterHead(today, part) + gap, false, z);
    assert AfterHead(today, part) + (gap + z) == AfterHead(today, part) + gap + z;
  }

  lemma AfterHeadEndsLine(today: string, part: Part, gap: string)
    requires Newlines(gap)
    ensures AfterHead(today, part) + gap != "" && EndsLine(AfterHead(today, part) + gap)
  {
  }

  // ---------------------------------------------------------------------
  // Inserting above the first section
  // ---------------------------------------------------------------------

  lemma ExtractAt(s: string, bol: bool, version: string)
    requires Find(s, bol).Some?
    ensures var f := Find(s, bol).value;
      var rest := s[f.skip + f.heading.length..];
      Extract(s, bol, version) ==
        if f.heading.version == version then SectionBody(rest) else Extract(rest, false, version)
  {
    hide Find, SectionBody;
  }

  /** Sections are read the same from wherever their heading is reached. */
  lemma ExtractSkips(a: string, bol: bool, b: string, version: string)
    requires Find(a + b, bol) == Shifted(|a|, Find(b, true))
    ensures Extract(a + b, bol, version) == Extract(b, true, version)
  {
    hide Find, SectionBody;
    if Find(b, true).Some? {
      var f := Find(b, true).value;
      var k := f.skip + f.heading.length;
      assert (a + b)[|a| + k..] == b[k..];
      ExtractAt(a + b, bol, version);
      ExtractAt(b, true, version);
    }
  }

  /** From the stub on: its own body, and for other versions what follows it. */
  lemma StubExtracts(version: string, today: string, part: Part, gap: string, z: string, v: string)
    requires VersionText(version) && OneLine(today) && Newlines(gap)
    requires Find(z, true) == None ==> z == ""
    requires Find(z, true).Some? ==> Find(z, true).value.skip == 0
    ensures Extract(Stub(version, today, part) + (gap + z), true, v) ==
      if v == version then StubBody(part) else Extract(z, true, v)
  {
    hide Find, Extract, Stub, SectionBody, AfterHead;
    StubIsFound(version, today, part, gap + z);
    ExtractAt(Stub(version, today, part) + (gap + z), true, v);
    if v == version {
      StubSection(today, part, gap, z);
    } else {
      NextAfterStub(today, part, gap, z);
      assert AfterHead(today, part) + (gap + z) == AfterHead(today, part) + gap + z;
      ExtractSkips(AfterHead(today, part) + gap, false, z, v);
    }
  }

  /** The stub's heading is found after lines that have none. */
  lemma StubAfter(a: string, version: string, today: string, part: Part, b: string, v: string)
    requires VersionText(version) && EndsLine(a) && Find(a, true) == None && !Dangling(a, true)
    ensures Extract(a + (Stub(version, today, part) + b), true, v) ==
            Extract(Stub(version, today, part) + b, true, v)
  {
    hide Find, Extract, Dangling, Stub, EndsLine;
    if a == "" {
      assert a + (Stub(version, today, part) + b) == Stub(version, today, part) + b;
    } else {
      FindSkips(a, true, Stub(version, today, part) + b);
      ExtractSkips(a, true, Stub(version, today, part) + b, v);
    }
  }

  lemma InsertedAbove(text: string, version: string, today: string, part: Part, v: string)
    requires VersionText(version) && OneLine(today) && Find(text, true).Some?
    ensures Extract(Inserted(text, version, today, part), true, v) ==
      if v == version then StubBody(part) else Extract(text, true, v)
  {
    hide Find, Extract, Dangling, Stub, Match, EndsLine;
    var f := Find(text, true).value;
    var a, z := text[..f.skip], text[f.skip..];
    assert text == a + z;
    FoundAtLineStart(text, true);
    PrefixHasNone(a, z, true);
    FoundHere(z);
    assert Newlines("\n") by {
      OneNewline();
    }
    StubExtracts(version, today, part, "\n", z, v);
    StubAfter(a, version, today, part, "\n" + z, v);
    assert Inserted(text, version, today, part) == a + (Stub(version, today, part) + ("\n" + z));
    if a == "" {
      assert text == z;
    } else {
      FindSkips(a, true, z);
      ExtractSkips(a, true, z, v);
    }
  }

  lemma OneNewline()
    ensures Newlines("\n") && Newlines("\n\n") && Newlines("")
  {
  }

  lemma FoundHere(z: string)
    requires Match(z).Some?
    ensures Find(z, true) == Some(Found(0, Match(z).value))
  {
    hide Match;
  }

  // ---------------------------------------------------------------------
  // Inserting at the end of a text without sections
  // ---------------------------------------------------------------------

  /** The text up to the stub: no heading, and bare hashes exactly where the file had them. */
  lemma BaseIsPlain(text: string)
    requires Find(text, true) == None
    ensures var a := DropNewlines(text) + "\n\n";
      && EndsLine(a) && a != "" && Find(a, true) == None
      && (Dangling(a, true) <==> Dangling(text, true))
  {
    hide Find, Dangling;
    var r := DropNewlines(text);
    DroppedAreNewlines(text);
    OneNewline();
    assert text == r + text[|r|..];
    TrailingNewlines(r, text[|r|..], true);
    TrailingNewlines(r, "\n\n", true);
  }

  lemma InsertedAtEnd(text: string, version: string, today: string, part: Part, v: string)
    requires VersionText(version) && OneLine(today)
    requires Find(text, true) == None && !Dangling(text, true)
    ensures Extract(Inserted(text, version, today, part), true, v) ==
      if v == version then StubBody(part) else Extract(text, true, v)
  {
    NoneInEmpty(v);
    hide Find, Dangling, Stub, EndsLine, DropNewlines;
    BaseIsPlain(text);
    OneNewline();
    var a := DropNewlines(text) + "\n\n";
    StubAfter(a, version, today, part, "" + "", v);
    StubExtracts(version, today, part, "", "", v);
    assert Inserted(text, version, today, part) == a + (Stub(version, today, part) + ("" + ""));
  }

  lemma NoneInEmpty(v: string)
    ensures Find("", true) == None && Extract("", true, v) == ""
  {
  }

  /** A bare pair of hashes at the end of a text takes the stub's own hashes for its version. */
  lemma {:induction false} DanglingSwallows(a: string, bol: bool, b: string) returns (k: nat)
    requires EndsLine(a) && Find(a, bol) == None && Dangling(a, bol)
    requires |b| > 2 && b[0] == '#' && b[1] == '#' && b[2] == ' '
    ensures k <= |a| && Find(a + b, bol) == Some(Found(k, Heading(|a| - k + 2, "##")))
  {
    hide Match, Bare, Find, Dangling, EndsLine;
    if bol && Bare(a) {
      BareTakesHashes(a, b);
      FoundHere(a + b);
      k := 0;
    } else {
      DanglingLater(a, bol, b);
      k := DanglingSwallows(a[1..], a[0] == '\n', b);
      FindStep(a + b, bol);
      k := k + 1;
    }
  }

  lemma DanglingLater(a: string, bol: bool, b: string)
    requires EndsLine(a) && Find(a, bol) == None && Dangling(a, bol) && !(bol && Bare(a))
    ensures a != "" && (a + b)[1..] == a[1..] + b && (a + b)[0] == a[0]
    ensures EndsLine(a[1..]) && Find(a[1..], a[0] == '\n') == None && Dangling(a[1..], a[0] == '\n')
    ensures !(bol && Match(a + b).Some?)
  {
    assert a != "";
    hide Match, Bare, Find, Dangling, LStrip;
    NoMatchAtFront(a, bol);
    if bol {
      MatchBeforeLineEnd(a, b);
    }
    DanglingStep(a, bol);
    FindStep(a, bol);
    ConsAppend(a, b);
  }

  lemma ConsAppend(a: string, b: string)
    requires a != "" && EndsLine(a)
    ensures (a + b)[1..] == a[1..] + b && (a + b)[0] == a[0] && EndsLine(a[1..])
  {
  }

  lemma HashesStartText(b: string)
    requires b != "" && b[0] == '#'
    ensures LStrip(b) == b
  {
    hide LStrip;
    LStripKeeps(b);
  }

  lemma BareTakesHashes(a: string, b: string)
    requires Bare(a) && EndsLine(a)
    requires |b| > 2 && b[0] == '#' && b[1] == '#' && b[2] == ' '
    ensures Match(a + b) == Some(Heading(|a| + 2, "##"))
    ensures (a + b)[|a| + 2..] == b[2..]
  {
    hide LStrip, Capture, Opened, TwoHashes;
    assert |a| > 2 && LStrip(a[2..]) == "";
    SameHashes(a, b);
    LStripOfAppend(a[2..], b);
    HashesStartText(b);
    NoBracket(b);
    DropOfAppend(a, b, 0);
    DropOfAppend(a, b, 2);
    CaptureHashes(a + b, b);
  }

  lemma NoBracket(b: string)
    requires b != "" && b[0] == '#'
    ensures Opened(b) == b
  {
  }

  lemma DropOfAppend(a: string, b: string, k: nat)
    requires k <= |b|
    ensures (a + b)[|a| + k..] == b[k..] && b[0..] == b
  {
  }

  lemma CaptureHashes(s: string, b: string)
    requires |b| + 2 <= |s| && s[|s| - |b|..] == b
    requires |b| > 2 && b[0] == '#' && b[1] == '#' && b[2] == ' '
    ensures Capture(s, b) == Some(Heading(|s| - |b| + 2, "##"))
  {
    assert b == "##" + b[2..];
    RunOf("##", b[2..]);
    hide Run;
    assert b[..2] == "##";
    assert s[|s| - |b|..][2] == s[|s| - |b| + 2];
  }

  /** Then the stub's section cannot be extracted. */
  lemma SwallowedStub(text: string, version: string, today: string, part: Part)
    requires VersionText(version) && OneLine(today)
    requires Find(text, true) == None && Dangling(text, true)
    ensures !HasSection(Inserted(text, version, today, part), true, version)
    ensures Extract(Inserted(text, version, today, part), true, version) == ""
  {
    var a, stub := DropNewlines(text) + "\n\n", Stub(version, today, part);
    hide Find, Dangling, EndsLine, DropNewlines, Stub, OneLine, VersionText, Extract, HasSection;
    assert Inserted(text, version, today, part) == a + stub;
    hide Inserted;
    StubTail(version, today, part);
    BaseIsPlain(text);
    var k := DanglingSwallows(a, true, stub);
    DropOfAppend(a, stub, 2);
    OnlySection(a + stub, version);
  }

  lemma StubTail(version: string, today: string, part: Part)
    requires VersionText(version) && OneLine(today)
    ensures var stub := Stub(version, today, part);
      && |stub| > 2 && stub[0] == '#' && stub[1] == '#' && stub[2] == ' '
      && Find(stub[2..], false) == None && version != "##"
  {
    var line := " [" + version + "] - " + today;
    assert Stub(version, today, part)[2..] == line + "\n" + Block(part);
    assert AfterHead(today, part) == " - " + today + "\n" + Block(part);
    hide Find, Dangling, AfterHead, Block;
    AfterHeadHasNone(today, part);
    assert OneLine(" - " + today);
    LineHasNone(" - " + today, Block(part), false);
    assert OneLine(line) by {
      assert !IsVersionChar('\n');
    }
    LineHasNone(line, Block(part), false);
  }

  // ---------------------------------------------------------------------
  // The main results
  // ---------------------------------------------------------------------

  /**
   When a stub is inserted, extracting the new version gives the stub's body and
   extracting any other version gives what it gave before: exactly when the text has a
   section already, or does not end in a line of two hashes and whitespace.
   */
  lemma InsertionIsExact(text: string, version: string, today: string, part: Part)
    requires VersionText(version) && OneLine(today)
    ensures (forall v :: Extract(Inserted(text, version, today, part), true, v) ==
               if v == version then StubBody(part) else Extract(text, true, v))
       <==> Find(text, true).Some? || !Dangling(text, true)
  {
    hide Find, Dangling, Extract, Inserted;
    if Find(text, true).Some? {
      forall v ensures Extract(Inserted(text, version, today, part), true, v) ==
                       if v == version then StubBody(part) else Extract(text, true, v)
      {
        InsertedAbove(text, version, today, part, v);
      }
    } else if !Dangling(text, true) {
      forall v ensures Extract(Inserted(text, version, today, part), true, v) ==
                       if v == version then StubBody(part) else Extract(text, true, v)
      {
        InsertedAtEnd(text, version, today, part, v);
      }
    } else {
      SwallowedStub(text, version, today, part);
      assert Extract(Inserted(text, version, today, part), true, version) != StubBody(part);
    }
  }

  /** A section that can be extracted exists. */
  lemma {:induction false} ExtractedExists(s: string, bol: bool, version: string)
    ensures Extract(s, bol, version) != "" ==> HasSection(s, bol, version)
    decreases |s|
  {
    hide Find, SectionBody;
    if Find(s, bol).Some? {
      var f := Find(s, bol).value;
      ExtractedExists(s[f.skip + f.heading.length..], false, version);
    }
  }

  /**
   After the call the file has a section for the version exactly when it had one, or
   when no heading merely began with that version and the stub was not swallowed.
   */
  lemma EnsuredHasSection(text: string, version: string, today: string, part: Part)
    requires VersionText(version) && OneLine(today)
    ensures HasSection(Ensured(text, version, today, part), true, version) <==>
      if Present(text, true, version) then HasSection(text, true, version)
      else Find(text, true).Some? || !Dangling(text, true)
  {
    hide Find, Dangling, Extract, Inserted, HasSection, Present;
    if !Present(text, true, version) {
      if Find(text, true).Some? || !Dangling(text, true) {
        InsertionIsExact(text, version, today, part);
        assert Extract(Inserted(text, version, today, part), true, version) == StubBody(part) != "";
        ExtractedExists(Inserted(text, version, today, part), true, version);
      } else {
        SwallowedStub(text, version, today, part);
      }
    }
  }

  /** A heading for a longer version, such as 0.1.10 for 0.1.1, blocks the stub. */
  lemma LongerVersionBlocksStub(version: string, more: string, today: string, part: Part)
    requires VersionText(version) && VersionText(more)
    ensures var text := "## [" + (version + more) + "]" + "\n";
      && Ensured(text, version, today, part) == text
      && !HasSection(text, true, version)
      && Extract(text, true, version) == ""
  {
    var longer := version + more;
    var text := "## [" + longer + "]" + "\n";
    assert VersionText(longer);
    hide VersionText, Starts, Match, Find, Extract, HasSection, Inserted;
    LongerStarts(version, more);
    OnlyLonger(longer, version);
  }

  lemma OnlyLonger(longer: string, version: string)
    requires VersionText(longer) && longer != version
    ensures !HasSection("## [" + longer + "]" + "\n", true, version)
    ensures Extract("## [" + longer + "]" + "\n", true, version) == ""
  {
    hide VersionText, Match, Find, Extract, HasSection;
    StubHead(longer, "\n");
    FoundHere("## [" + longer + "]" + "\n");
    NothingInNewlines("\n", false);
    OnlySection("## [" + longer + "]" + "\n", version);
  }

  lemma OnlySection(s: string, version: string)
    requires Find(s, true).Some?
    requires var f := Find(s, true).value;
      Find(s[f.skip + f.heading.length..], false) == None && f.heading.version != version
    ensures !HasSection(s, true, version) && Extract(s, true, version) == ""
  {
    hide Find;
  }

  lemma LongerStarts(version: string, more: string)
    requires VersionText(version)
    ensures Starts("## [" + (version + more) + "]" + "\n", version)
  {
    var text, rest := "## [" + (version + more) + "]" + "\n", "[" + (version + (more + "]\n"));
    assert text[2..] == " " + rest;
    LStripOneBlank(text[2..]);
    hide LStrip;
    assert text[2..][1..] == rest;
    assert rest[1..] == version + (more + "]\n");
  }

  /** The guard misses no section: with no heading beginning with the version, none is for it. */
  lemma {:induction false} NotPresentHasNone(s: string, bol: bool, version: string)
    requires !Present(s, bol, version)
    ensures !HasSection(s, bol, version)
    decreases |s|
  {
    hide Find, Starts, Present, Match;
    if Find(s, bol).Some? {
      var f := Find(s, bol).value;
      var here, rest := s[f.skip..], s[f.skip + f.heading.length..];
      FoundAtLineStart(s, bol);
      NotPresentLater(s, bol, f.skip, version);
      NotPresentHere(here, version);
      if f.heading.version == version {
        CapturedStarts(here, version);
      }
      NotPresentLater(s, bol, f.skip + f.heading.length, version);
      WeakerBol(rest, s[f.skip + f.heading.length - 1] == '\n', version);
      NotPresentHasNone(rest, false, version);
    }
  }

  lemma NotPresentHere(s: string, version: string)
    requires s != "" && !Present(s, true, version)
    ensures !Starts(s, version)
  {
  }

  lemma WeakerBol(s: string, bol: bool, version: string)
    requires !Present(s, bol, version)
    ensures !Present(s, false, version)
  {
  }

  lemma {:induction false} NotPresentLater(s: string, bol: bool, k: nat, version: string)
    requires k <= |s| && !Present(s, bol, version)
    ensures !Present(s[k..], if k == 0 then bol else s[k - 1] == '\n', version)
  {
    if k > 0 {
      NotPresentLater(s[1..], s[0] == '\n', k - 1, version);
      assert s[1..][k - 1..] == s[k..];
    } else {
      assert s[0..] == s;
    }
  }

  lemma CapturedStarts(s: string, version: string)
    requires Match(s).Some? && Match(s).value.version == version
    ensures Starts(s, version)
  {
    var rest := LStrip(s[2..]);
    hide LStrip, Run;
    assert Opened(rest)[..|version|] == version;
  }
}
