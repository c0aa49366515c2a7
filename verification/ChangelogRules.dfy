/**
 The changelog functions against what their patterns say: which lines are headings, which
 heading is found, what the guard looks for, and what an insertion leaves of the text.
 */
module ChangelogRules {
  import opened Prelude
  import opened Changelog
  import opened ChangelogProperties

  // ---------------------------------------------------------------------
  // Headings
  // ---------------------------------------------------------------------

  /** The parts of a heading: so much whitespace after two hashes, an opening bracket or
      none, the version, and a closing bracket or none. */
  datatype Parts = Parts(blanks: nat, bracket: bool, version: string, closed: bool) {
    function Length(): nat {
      2 + blanks + (if bracket then 1 else 0) + |version| + (if closed then 1 else 0)
    }
  }

  predicate IsVersion(v: string) {
    v != "" && forall k | 0 <= k < |v| :: IsVersionChar(v[k])
  }

  /** The text is over, or goes on with whitespace or a closing bracket. */
  predicate EndsVersion(s: string) {
    s == "" || IsSpace(s[0]) || s[0] == ']'
  }

  /** s opens with the version, and with a closing bracket if it is taken as such. */
  predicate ReadsVersion(s: string, version: string, closed: bool) {
    && IsVersion(version) && version <= s
    && var tail := s[|version|..];
    if closed then tail != "" && tail[0] == ']' && EndsVersion(tail[1..]) else EndsVersion(tail)
  }

  /** The pattern matches the front of s with these parts. */
  predicate Reads(s: string, p: Parts) {
    && 2 + p.blanks <= |s|
    && s[0] == '#' && s[1] == '#' && !(|s| > 2 && s[2] == '#')
    && (forall k | 2 <= k < 2 + p.blanks :: IsSpace(s[k]))
    && var rest := s[2 + p.blanks..];
    if p.bracket then rest != "" && rest[0] == '[' && ReadsVersion(rest[1..], p.version, p.closed)
    else ReadsVersion(rest, p.version, p.closed)
  }

  lemma {:induction false} BlanksAreStripped(t: string, n: nat)
    requires n < |t| && AllSpace(t[..n]) && !IsSpace(t[n])
    ensures LStrip(t) == t[n..]
    decreases n
  {
    hide IsSpace;
    if n == 0 {
      assert t[0..] == t;
    } else {
      assert IsSpace(t[..n][0]);
      assert t[1..][..n - 1] == t[..n][1..];
      BlanksAreStripped(t[1..], n - 1);
      assert t[1..][n - 1..] == t[n..];
    }
  }

  /** A run of version characters ends where something else comes. */
  lemma {:induction false} RunIsVersion(s: string, v: string)
    requires v <= s && forall k | 0 <= k < |v| :: IsVersionChar(v[k])
    requires |v| == |s| || !IsVersionChar(s[|v|])
    ensures Run(s) == |v|
  {
    hide IsVersionChar;
    if v != "" {
      assert s[0] == v[0];
      assert forall k | 0 <= k < |v| - 1 :: v[1..][k] == v[k + 1];
      RunIsVersion(s[1..], v[1..]);
    }
  }

  /** Whether a closing bracket follows the run, as the pattern's end takes it. */
  predicate Closes(named: string) {
    var n := Run(named);
    n < |named| && named[n] == ']' && EndsVersion(named[n + 1..])
  }

  lemma EndIsNoVersion(s: string)
    ensures EndsVersion(s) <==> s == "" || !IsVersionChar(s[0])
  {
    hide IsSpace;
  }

  lemma CaptureIs(s: string, named: string)
    requires |named| + 2 <= |s| && named == s[|s| - |named|..]
    ensures var n := Run(named);
      Capture(s, named) ==
        if n == 0 then None
        else Some(Heading(|s| - |named| + n + (if Closes(named) then 1 else 0), named[..n]))
  {
    hide *;
    ClosesInText(s, named);
    CaptureUnfolds(s, named);
  }

  predicate ClosesAt(s: string, after: nat) {
    after < |s| && s[after] == ']' && (after + 1 == |s| || !IsVersionChar(s[after + 1]))
  }

  lemma CaptureUnfolds(s: string, named: string)
    requires |named| + 2 <= |s|
    ensures var n, after := Run(named), |s| - |named| + Run(named);
      Capture(s, named) ==
        if n == 0 then None
        else Some(Heading(if ClosesAt(s, after) then after + 1 else after, named[..n]))
  {
    hide Run, IsVersionChar;
  }

  lemma ClosesInText(s: string, named: string)
    requires |named| + 2 <= |s| && named == s[|s| - |named|..]
    ensures Closes(named) <==> ClosesAt(s, |s| - |named| + Run(named))
  {
    var n := Run(named);
    hide Run, IsVersionChar, EndsVersion;
    if n < |named| {
      assert named[n] == s[|s| - |named| + n];
      EndIsNoVersion(named[n + 1..]);
      assert n + 1 < |named| ==> named[n + 1] == s[|s| - |named| + n + 1] == named[n + 1..][0];
    }
  }

  lemma RunReads(named: string)
    requires Run(named) > 0
    ensures ReadsVersion(named, named[..Run(named)], Closes(named))
  {
    var n := Run(named);
    assert IsVersion(named[..n]);
    var tail := named[n..];
    EndIsNoVersion(tail);
    assert tail != "" ==> tail[0] == named[n] && tail[1..] == named[n + 1..];
    hide Run, IsVersionChar, EndsVersion;
  }

  lemma ReadsIsRun(named: string, version: string, closed: bool)
    requires ReadsVersion(named, version, closed)
    ensures Run(named) == |version| > 0 && named[..Run(named)] == version && (closed ==> Closes(named))
  {
    var tail := named[|version|..];
    EndIsNoVersion(tail);
    assert tail != "" ==> tail[0] == named[|version|] && tail[1..] == named[|version| + 1..];
    assert closed ==> !IsVersionChar(tail[0]);
    hide IsVersionChar, EndsVersion;
    RunIsVersion(named, version);
    hide Run;
  }

  lemma BlanksInFront(s: string, rest: string)
    requires |s| >= 2 && rest == LStrip(s[2..])
    ensures |rest| <= |s| - 2 && AllSpace(s[2..|s| - |rest|]) && rest == s[|s| - |rest|..]
  {
    hide IsSpace, AllSpace, LStrip;
    var t := s[2..];
    LStripParts(t);
    assert t[..|t| - |rest|] == s[2..|s| - |rest|];
    assert t[|t| - |rest|..] == s[|s| - |rest|..];
  }

  lemma LStripParts(t: string)
    ensures |LStrip(t)| <= |t| && LStrip(t) == t[|t| - |LStrip(t)|..] && AllSpace(t[..|t| - |LStrip(t)|])
  {
    hide IsSpace, AllSpace;
  }

  /** What is matched reads as the pattern says. */
  lemma MatchReads(s: string) returns (p: Parts)
    requires Match(s).Some?
    ensures Reads(s, p) && p.version == Match(s).value.version && p.Length() == Match(s).value.length
  {
    hide *;
    MatchUnfolds(s);
    var rest := LStrip(s[2..]);
    var named := Opened(rest);
    BlanksInFront(s, rest);
    OpenedIsSuffix(s, rest);
    CaptureIs(s, named);
    RunReads(named);
    p := PartsRead(s, rest, named);
  }

  lemma MatchUnfolds(s: string)
    ensures Match(s) == if TwoHashes(s) then Capture(s, Opened(LStrip(s[2..]))) else None
  {
  }

  lemma PartsRead(s: string, rest: string, named: string) returns (p: Parts)
    requires TwoHashes(s) && |rest| <= |s| - 2 && AllSpace(s[2..|s| - |rest|]) && rest == s[|s| - |rest|..]
    requires named == Opened(rest) && |rest| - |named| == (if Brackets(rest) then 1 else 0)
    requires ReadsVersion(named, named[..Run(named)], Closes(named))
    ensures Reads(s, p) && p.version == named[..Run(named)]
    ensures p.Length() == |s| - |named| + Run(named) + (if Closes(named) then 1 else 0)
  {
    p := Parts(|s| - 2 - |rest|, Brackets(rest), named[..Run(named)], Closes(named));
    BlanksAsPlaces(s, p.blanks);
    hide Run, Closes, ReadsVersion, AllSpace, IsSpace, IsVersionChar;
    assert s[2 + p.blanks..] == rest;
  }

  lemma OpenedIsSuffix(s: string, rest: string)
    requires |rest| + 2 <= |s| && rest == s[|s| - |rest|..]
    ensures var named := Opened(rest);
      |named| + 2 <= |s| && named == s[|s| - |named|..] && |rest| - |named| == if Brackets(rest) then 1 else 0
  {
    hide IsVersionChar;
    assert rest != "" ==> rest[1..] == s[|s| - |rest| + 1..];
  }

  lemma BlanksAsPlaces(s: string, n: nat)
    requires 2 + n <= |s|
    ensures AllSpace(s[2..2 + n]) <==> forall k | 2 <= k < 2 + n :: IsSpace(s[k])
  {
    hide IsSpace;
    if AllSpace(s[2..2 + n]) {
      forall k | 2 <= k < 2 + n ensures IsSpace(s[k]) {
        assert IsSpace(s[2..2 + n][k - 2]);
      }
    }
  }

  /** Whatever reads as the pattern says is matched: with the same version, or, where the
      reading took an opening bracket into the version, with what follows it. */
  lemma ReadsIsMatched(s: string, p: Parts)
    requires Reads(s, p)
    ensures Match(s).Some?
    ensures var h := Match(s).value;
      && p.Length() <= h.length
      && (h.version == p.version || (!p.bracket && p.version == "[" + h.version))
  {
    hide *;
    FirstIsNoSpace(s, p);
    var rest := RestRead(s, p);
    MatchUnfolds(s);
    OpenedIsSuffix(s, rest);
    CaptureIs(s, Opened(rest));
    OpenedReads(rest, p);
    LengthIs(p);
  }

  lemma LengthIs(p: Parts)
    ensures p.Length() ==
      2 + p.blanks + (if p.bracket then 1 else 0) + |p.version| + (if p.closed then 1 else 0)
  {
  }

  lemma RestRead(s: string, p: Parts) returns (rest: string)
    requires Reads(s, p) && 2 + p.blanks < |s| && !IsSpace(s[2 + p.blanks])
    ensures TwoHashes(s) && rest == LStrip(s[2..]) && |rest| == |s| - 2 - p.blanks && rest == s[|s| - |rest|..]
    ensures if p.bracket then rest != "" && rest[0] == '[' && ReadsVersion(rest[1..], p.version, p.closed)
            else ReadsVersion(rest, p.version, p.closed)
  {
    rest := s[2 + p.blanks..];
    BlanksAsPlaces(s, p.blanks);
    hide ReadsVersion, LStrip, AllSpace, IsSpace;
    assert s[2..][..p.blanks] == s[2..2 + p.blanks] && s[2..][p.blanks..] == rest;
    BlanksAreStripped(s[2..], p.blanks);
  }

  lemma FirstIsNoSpace(s: string, p: Parts)
    requires Reads(s, p)
    ensures 2 + p.blanks < |s| && !IsSpace(s[2 + p.blanks])
  {
    var rest := s[2 + p.blanks..];
    assert !IsSpace('[');
    assert rest != "" ==> rest[0] == s[2 + p.blanks];
    assert !p.bracket ==> rest[0] == p.version[0] && IsVersionChar(p.version[0]);
    hide IsSpace, EndsVersion;
  }

  /** What the rest of a heading line reads as, and what is captured of it. */
  lemma OpenedReads(rest: string, p: Parts)
    requires if p.bracket then rest != "" && rest[0] == '[' && ReadsVersion(rest[1..], p.version, p.closed)
             else ReadsVersion(rest, p.version, p.closed)
    ensures var named := Opened(rest);
      var n, more := Run(named), if p.bracket then 1 else 0;
      && n > 0
      && |rest| - |named| + n + (if Closes(named) then 1 else 0) >= more + |p.version| + (if p.closed then 1 else 0)
      && (named[..n] == p.version || (!p.bracket && p.version == "[" + named[..n]))
  {
    if p.bracket {
      assert rest[1] == rest[1..][0] == p.version[0] && IsVersionChar(p.version[0]);
      ReadsIsRun(rest[1..], p.version, p.closed);
    } else if Brackets(rest) {
      BracketInVersion(rest, p.version, p.closed);
    } else {
      ReadsIsRun(rest, p.version, p.closed);
    }
    hide Run, Closes, ReadsVersion, IsVersionChar;
  }

  lemma BracketInVersion(rest: string, version: string, closed: bool)
    requires ReadsVersion(rest, version, closed) && Brackets(rest)
    ensures var named := rest[1..];
      && Run(named) == |version| - 1 > 0 && version == "[" + named[..Run(named)] && (closed ==> Closes(named))
  {
    var named, v := rest[1..], version[1..];
    var tail := rest[|version|..];
    EndIsNoVersion(tail);
    assert version[0] == rest[0] == '[';
    assert named[|v|..] == tail && v <= named && version == "[" + v;
    assert forall k | 0 <= k < |v| :: v[k] == version[k + 1];
    assert closed ==> !IsVersionChar(']');
    hide IsVersionChar, EndsVersion;
    ReadsIsRun(named, v, closed);
  }

  // ---------------------------------------------------------------------
  // Which heading is found, and what the guard looks for
  // ---------------------------------------------------------------------

  /** Place k starts a line; the text itself is read from the start of one if bol says so. */
  predicate StartsLine(s: string, bol: bool, k: int)
    requires 0 <= k <= |s|
  {
    if k == 0 then bol else s[k - 1] == '\n'
  }

  /** The heading found is the first line that matches, and none is found only when no line
      does. */
  lemma {:induction false} FoundIsFirst(s: string, bol: bool)
    ensures var end := if Find(s, bol).Some? then Find(s, bol).value.skip else |s|;
      forall k | 0 <= k < end && StartsLine(s, bol, k) :: Match(s[k..]) == None
    ensures Find(s, bol).Some? ==>
      var f := Find(s, bol).value;
      f.skip <= |s| && StartsLine(s, bol, f.skip) && Match(s[f.skip..]) == Some(f.heading)
  {
    hide Match;
    if Find(s, bol).Some? {
      FoundAtLineStart(s, bol);
    }
    if s != "" && !(bol && Match(s).Some?) {
      FoundIsFirst(s[1..], s[0] == '\n');
      var end := if Find(s, bol).Some? then Find(s, bol).value.skip else |s|;
      forall k | 0 <= k < end && StartsLine(s, bol, k) ensures Match(s[k..]) == None {
        if k == 0 {
          assert s[0..] == s;
        } else {
          assert s[k..] == s[1..][k - 1..];
          assert StartsLine(s[1..], s[0] == '\n', k - 1);
        }
      }
    }
  }

  /** The guard's pattern: the version opens the heading, perhaps after a bracket. */
  ghost predicate Opens(s: string, version: string, blanks: nat, bracket: bool) {
    var at := 2 + blanks + if bracket then 1 else 0;
    && at <= |s|
    && s[0] == '#' && s[1] == '#' && !(|s| > 2 && s[2] == '#')
    && AllSpace(s[2..2 + blanks]) && (bracket ==> s[2 + blanks] == '[')
    && version <= s[at..]
  }

  lemma StartsExactly(s: string, version: string)
    requires VersionText(version)
    ensures Starts(s, version) <==> exists blanks: nat, bracket: bool :: Opens(s, version, blanks, bracket)
  {
    if Starts(s, version) {
      StartsOpens(s, version);
    }
    if blanks: nat, bracket: bool :| Opens(s, version, blanks, bracket) {
      OpensStarts(s, version, blanks, bracket);
    }
    hide Starts, Opens;
  }

  lemma StartsOpens(s: string, version: string)
    requires Starts(s, version)
    ensures exists blanks: nat, bracket: bool :: Opens(s, version, blanks, bracket)
  {
    var rest := LStrip(s[2..]);
    BlanksInFront(s, rest);
    hide LStrip, AllSpace, IsSpace;
    OpensAfterBlanks(s, rest, version);
  }

  lemma OpensAfterBlanks(s: string, rest: string, version: string)
    requires TwoHashes(s) && |rest| <= |s| - 2 && AllSpace(s[2..|s| - |rest|]) && rest == s[|s| - |rest|..]
    requires version <= rest || (rest != "" && rest[0] == '[' && version <= rest[1..])
    ensures exists blanks: nat, bracket: bool :: Opens(s, version, blanks, bracket)
  {
    hide AllSpace;
    var blanks := |s| - 2 - |rest|;
    if version <= rest {
      assert Opens(s, version, blanks, false);
    } else {
      assert s[2 + blanks + 1..] == rest[1..];
      assert Opens(s, version, blanks, true);
    }
  }

  lemma OpensStarts(s: string, version: string, blanks: nat, bracket: bool)
    requires VersionText(version) && Opens(s, version, blanks, bracket)
    ensures Starts(s, version)
  {
    var rest := s[2 + blanks..];
    assert version[0] == s[2 + blanks + (if bracket then 1 else 0)];
    assert !IsSpace('[');
    assert s[2..][..blanks] == s[2..2 + blanks] && s[2..][blanks..] == rest;
    BlanksAreStripped(s[2..], blanks);
    assert bracket ==> rest[1..] == s[2 + blanks + 1..];
    hide LStrip;
  }

  /** The guard stops the insertion exactly when some line opens with that version. */
  lemma {:induction false} PresentExactly(s: string, bol: bool, version: string)
    ensures Present(s, bol, version) <==>
      exists k | 0 <= k < |s| :: StartsLine(s, bol, k) && Starts(s[k..], version)
  {
    hide Starts;
    if s != "" {
      PresentExactly(s[1..], s[0] == '\n', version);
      assert s[0..] == s;
      if Present(s[1..], s[0] == '\n', version) {
        var k :| 0 <= k < |s[1..]| && StartsLine(s[1..], s[0] == '\n', k) && Starts(s[1..][k..], version);
        assert s[1..][k..] == s[k + 1..];
        assert StartsLine(s, bol, k + 1);
      }
      if k :| 0 <= k < |s| && StartsLine(s, bol, k) && Starts(s[k..], version) {
        if k > 0 {
          assert s[1..][k - 1..] == s[k..];
          assert StartsLine(s[1..], s[0] == '\n', k - 1);
        }
      }
    }
  }

  // ---------------------------------------------------------------------
  // What an insertion leaves
  // ---------------------------------------------------------------------

  /** The text is still there, around the stub: in front of its first heading, or, but for
      newlines at its end, before the stub. */
  lemma InsertedKeepsText(text: string, version: string, today: string, part: Part)
    returns (front: string, back: string)
    ensures var stub := "## [" + version + "] - " + today + "\n\n### Changed\n\n- "
                        + (if part.Patch? then "Patch" else "Minor") + " version bump.\n";
      if Find(text, true).Some? then
        text == front + back && Inserted(text, version, today, part) == front + stub + "\n" + back
        && Match(back).Some? && (front == "" || front[|front| - 1] == '\n')
      else
        && text == front + back && (forall k | 0 <= k < |back| :: back[k] == '\n')
        && (front == "" || front[|front| - 1] != '\n')
        && Inserted(text, version, today, part) == front + "\n\n" + stub
  {
    StubIs(version, today, part);
    hide Match, Stub, Find;
    var found := Find(text, true);
    if found.Some? {
      FoundAtLineStart(text, true);
      front, back := text[..found.value.skip], text[found.value.skip..];
    } else {
      front, back := DropNewlines(text), text[|DropNewlines(text)|..];
      DroppedAreNewlines(text);
      NothingMoreToDrop(text);
    }
  }

  lemma StubIs(version: string, today: string, part: Part)
    ensures Stub(version, today, part) == "## [" + version + "] - " + today + "\n\n### Changed\n\n- "
      + (if part.Patch? then "Patch" else "Minor") + " version bump.\n"
  {
  }

  lemma {:induction false} NothingMoreToDrop(s: string)
    ensures DropNewlines(s) == "" || DropNewlines(s)[|DropNewlines(s)| - 1] != '\n'
  {
    if s != "" && s[|s| - 1] == '\n' {
      NothingMoreToDrop(s[..|s| - 1]);
    }
  }
}
