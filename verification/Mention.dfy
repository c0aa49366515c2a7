/** Mention gating: does a channel message open with this node's name? */
module Mention {
  import opened Prelude
  import opened Channels

  /** This node's names, as far as the radio has reported them. */
  datatype Identity = Identity(shortName: Option<string>, longName: Option<string>, nodeId: Option<string>)

  function AddCandidate(out: seq<string>, text: string): seq<string> {
    if text != "" && text !in out then out + [text] else out
  }

  function Add(out: seq<string>, value: Option<string>): seq<string> {
    AddCandidate(out, if value.Some? then Strip(value.value) else "")
  }

  /** _mention_candidates: short name, long name, node id, node id without its "!". */
  function Candidates(who: Identity): seq<string> {
    var out := Add(Add(Add([], who.shortName), who.longName), who.nodeId);
    if who.nodeId.Some? && who.nodeId.value != "" && who.nodeId.value[0] == '!'
    then Add(out, Some(who.nodeId.value[1..]))
    else out
  }

  /** Separators a mention may be followed by; the whitespace here is all of it. */
  predicate IsTail(c: char) {
    IsSpace(c) || c == ':' || c == ','
  }

  /** The characters stripped after a mention; the whitespace here is only blanks and tabs. */
  predicate IsLead(c: char) {
    c == ' ' || c == '\t' || c == ':' || c == ','
  }

  function LStripLead(s: string): (r: string)
    ensures |r| <= |s| && r == s[|s| - |r|..]
  {
    if s != "" && IsLead(s[0]) then LStripLead(s[1..]) else s
  }

  /** Name, case aside, opens body, and whitespace, a colon, a comma or the end follows. */
  predicate Opens(casing: Casing, body: string, name: string) {
    && |name| <= |body|
    && casing.Lower(body)[..|name|] == casing.Lower(name)
    && (|name| == |body| || IsSpace(body[|name|]) || body[|name|] in {':', ','})
  }

  /** The text without leading whitespace and one optional "@". */
  function Body(text: string): string {
    AfterAt(LStrip(text))
  }

  lemma BodyIsSuffix(text: string)
    ensures |Body(text)| <= |text| && Body(text) == text[|text| - |Body(text)|..]
  {
    var body := LStrip(text);
    hide LStrip, AfterAt, AllSpace, IsSpace;
    SuffixOfSuffix(text, body, AfterAt(body));
  }

  function AfterAt(body: string): (rest: string)
    ensures |rest| <= |body| && rest == body[|body| - |rest|..]
  {
    if body != "" && body[0] == '@' then
      var rest := LStrip(body[1..]);
      assert body[1..][|body| - 1 - |rest|..] == body[|body| - |rest|..];
      rest
    else body
  }

  lemma SuffixOfSuffix(text: string, body: string, rest: string)
    requires |rest| <= |body| <= |text| && body == text[|text| - |body|..]
    requires rest == body[|body| - |rest|..]
    ensures rest == text[|text| - |rest|..]
  {
  }

  /** What is left after a mention of the given length. */
  function Remainder(body: string, length: nat): string
    requires length <= |body|
  {
    Strip(LStripLead(body[length..]))
  }

  // ---------------------------------------------------------------------
  // What a match is
  // ---------------------------------------------------------------------

  /** A trimmed, non-blank identifier, or the node id without its mark. */
  ghost predicate IsCandidate(who: Identity, name: string) {
    && name != ""
    && (|| (who.shortName.Some? && name == Strip(who.shortName.value))
        || (who.longName.Some? && name == Strip(who.longName.value))
        || (who.nodeId.Some? && name == Strip(who.nodeId.value))
        || (&& who.nodeId.Some? && who.nodeId.value != "" && who.nodeId.value[0] == '!'
            && name == Strip(who.nodeId.value[1..])))
  }

  ghost predicate Mentions(casing: Casing, text: string, who: Identity, name: string) {
    IsCandidate(who, name) && Opens(casing, Body(text), name)
  }

  /** name is a mention that opens the text, and no longer one does. */
  ghost predicate LongestMention(casing: Casing, text: string, who: Identity, name: string) {
    && Mentions(casing, text, who, name)
    && forall other | Mentions(casing, text, who, other) :: |other| <= |name|
  }

  /** None when nothing known opens the text; otherwise what follows the longest mention. */
  ghost predicate IsMatch(casing: Casing, text: string, who: Identity, rest: Option<string>) {
    match rest
    case None => forall name :: !Mentions(casing, text, who, name)
    case Some(r) => exists name ::
      LongestMention(casing, text, who, name) && r == Remainder(Body(text), |name|)
  }

  lemma CandidatesAreNames(who: Identity)
    ensures forall name :: IsCandidate(who, name) <==> name in Candidates(who)
  {
    hide Strip;
  }

  // ---------------------------------------------------------------------
  // match_mention
  // ---------------------------------------------------------------------

  /** The longest of some names that opens the body, as the loop of match_mention finds it. */
  ghost predicate IsBest(casing: Casing, body: string, names: seq<string>, best: Option<nat>) {
    match best
    case None => forall name | name in names :: !Opens(casing, body, name)
    case Some(length) =>
      && (exists name | name in names :: Opens(casing, body, name) && |name| == length)
      && forall name | name in names && Opens(casing, body, name) :: |name| <= length
  }

  method BestMention(casing: Casing, body: string, names: seq<string>) returns (best: Option<nat>)
    ensures IsBest(casing, body, names, best)
  {
    hide IsSpace;
    var lowered := casing.Lower(body);
    best := None;
    for n := 0 to |names|
      invariant IsBest(casing, body, names[..n], best)
    {
      var cand := names[n];
      assert names[..n + 1] == names[..n] + [cand];
      if !(casing.Lower(cand) <= lowered) {
        continue;
      }
      var after := body[|cand|..];
      if after != "" && !IsTail(after[0]) {
        continue;
      }
      if best.None? || |cand| > best.value {
        best := Some(|cand|);
      }
    }
    assert names[..|names|] == names;
  }

  lemma BestGivesMatch(casing: Casing, text: string, who: Identity, names: seq<string>, best: Option<nat>)
    requires forall name :: IsCandidate(who, name) <==> name in names
    requires IsBest(casing, Body(text), names, best)
    ensures match best
      case None => IsMatch(casing, text, who, None)
      case Some(length) => length <= |Body(text)| && IsMatch(casing, text, who, Some(Remainder(Body(text), length)))
  {
    hide IsCandidate, Body;
    if best.Some? {
      var name :| name in names && Opens(casing, Body(text), name) && |name| == best.value;
      hide Opens, Remainder;
      assert LongestMention(casing, text, who, name);
    }
  }

  /** match_mention decides for every identity and every text. */
  method MatchMention(casing: Casing, text: string, who: Identity) returns (rest: Option<string>)
    ensures IsMatch(casing, text, who, rest)
  {
    hide Candidates, IsCandidate, LStrip, Strip, LStripLead, IsMatch, IsBest, Opens;
    CandidatesAreNames(who);
    EmptyBodyHasNoMention(casing, text, who);
    if text == "" {
      return None;
    }
    var candidates := Candidates(who);
    if candidates == [] {
      NothingKnown(casing, text, who);
      return None;
    }
    var body := LStrip(text);
    if body != "" && body[0] == '@' {
      body := LStrip(body[1..]);
    }
    if body == "" {
      return None;
    }
    var best := BestMention(casing, body, candidates);
    BestGivesMatch(casing, text, who, candidates, best);
    if best.None? {
      return None;
    }
    rest := Some(Strip(LStripLead(body[best.value..])));
  }

  lemma NothingKnown(casing: Casing, text: string, who: Identity)
    requires forall name :: !IsCandidate(who, name)
    ensures IsMatch(casing, text, who, None)
  {
  }

  lemma EmptyBodyHasNoMention(casing: Casing, text: string, who: Identity)
    ensures text == "" ==> Body(text) == ""
    ensures Body(text) == "" ==> IsMatch(casing, text, who, None)
  {
  }

  // ---------------------------------------------------------------------
  // Consequences
  // ---------------------------------------------------------------------

  /** The answer depends only on which names are known, not on which field or in what
      order they came. */
  lemma OrderOfNamesIsIrrelevant(casing: Casing, text: string, who: Identity, who': Identity,
                                 rest: Option<string>, rest': Option<string>)
    requires forall name :: IsCandidate(who, name) <==> IsCandidate(who', name)
    requires IsMatch(casing, text, who, rest) && IsMatch(casing, text, who', rest')
    ensures rest == rest'
  {
    hide Body, Remainder, IsCandidate;
    assert forall name :: Mentions(casing, text, who, name) <==> Mentions(casing, text, who', name);
    if rest.Some? && rest'.Some? {
      var name :| LongestMention(casing, text, who, name) && rest.value == Remainder(Body(text), |name|);
      var name' :| LongestMention(casing, text, who', name') && rest'.value == Remainder(Body(text), |name'|);
      assert Mentions(casing, text, who, name') && Mentions(casing, text, who', name);
    }
  }

  /** A remainder is a trimmed piece of the text, and only whitespace follows it there. */
  lemma RemainderIsAPiece(casing: Casing, text: string, who: Identity, r: string) returns (lo: nat, hi: nat)
    requires IsMatch(casing, text, who, Some(r))
    ensures lo <= hi <= |text| && r == text[lo..hi] && Trimmed(r)
    ensures AllSpace(text[hi..])
  {
    hide IsCandidate, Body, IsSpace, Strip;
    var name :| LongestMention(casing, text, who, name) && r == Remainder(Body(text), |name|);
    BodyIsSuffix(text);
    lo, hi := RemainderWithin(text, Body(text), |name|);
  }

  lemma RemainderWithin(text: string, body: string, length: nat) returns (lo: nat, hi: nat)
    requires |body| <= |text| && body == text[|text| - |body|..] && length <= |body|
    ensures lo <= hi <= |text| && Remainder(body, length) == text[lo..hi] && Trimmed(text[lo..hi])
    ensures AllSpace(text[hi..])
  {
    hide Strip, LStripLead, IsSpace, AllSpace, Trimmed;
    var tail := LStripLead(body[length..]);
    var l, h := StripIsSlice(tail);
    var skip := |text| - |tail|;
    lo, hi := skip + l, skip + h;
    assert tail == text[skip..];
    SliceOfSuffix(text, skip, l, h);
  }

  // ---------------------------------------------------------------------
  // What becomes of the text around a mention
  // ---------------------------------------------------------------------

  /** What may stand before a mention: whitespace, and an "@" with whitespace around it. */
  ghost predicate IsOpening(front: string) {
    || AllSpace(front)
    || exists at | 0 <= at < |front| :: front[at] == '@' && AllSpace(front[..at]) && AllSpace(front[at + 1..])
  }

  lemma StrippedFront(s: string)
    ensures s == s[..|s| - |LStrip(s)|] + LStrip(s)
  {
    hide AllSpace, IsSpace;
  }

  lemma OpeningWithAt(blank: string, more: string)
    requires AllSpace(blank) && AllSpace(more)
    ensures IsOpening(blank + "@" + more) && !AllSpace(blank + "@" + more)
  {
    hide IsSpace;
    var front, at := blank + "@" + more, |blank|;
    assert front[at] == '@' && front[..at] == blank && front[at + 1..] == more;
    AtIsNoSpace();
  }

  lemma AtIsNoSpace()
    ensures !IsSpace('@')
  {
  }

  lemma BodyExactly(text: string) returns (front: string)
    ensures text == front + Body(text) && IsOpening(front)
    ensures Body(text) != "" ==> !IsSpace(Body(text)[0])
    ensures AllSpace(front) && Body(text) != "" ==> Body(text)[0] != '@'
  {
    var body := LStrip(text);
    StrippedFront(text);
    var blank := text[..|text| - |body|];
    if body != "" && body[0] == '@' {
      StrippedFront(body[1..]);
      var rest := LStrip(body[1..]);
      var more := body[1..][..|body[1..]| - |rest|];
      OpeningWithAt(blank, more);
      front := blank + "@" + more;
      hide LStrip, AllSpace, IsSpace, IsOpening;
      Regroup(text, blank, body, more, rest);
    } else {
      front := blank;
      hide LStrip, AllSpace, IsSpace;
    }
  }

  lemma Regroup(text: string, blank: string, body: string, more: string, rest: string)
    requires text == blank + body && body != "" && body[0] == '@' && body[1..] == more + rest
    ensures text == blank + "@" + more + rest
  {
    assert body == [body[0]] + body[1..];
  }

  /** Separators of the kind that are stripped one by one. */
  predicate AreLeads(s: string) {
    s == "" || ((s[0] == ' ' || s[0] == '\t' || s[0] == ':' || s[0] == ',') && AreLeads(s[1..]))
  }

  predicate StartsWithLead(s: string) {
    s != "" && (s[0] == ' ' || s[0] == '\t' || s[0] == ':' || s[0] == ',')
  }

  lemma {:induction false} LeadsExactly(s: string) returns (leads: string)
    ensures s == leads + LStripLead(s) && AreLeads(leads) && !StartsWithLead(LStripLead(s))
  {
    LStripLeadUnfolds(s);
    hide LStripLead, AreLeads;
    if s != "" && IsLead(s[0]) {
      var more := LeadsExactly(s[1..]);
      leads := OneMoreLead(s, more, LStripLead(s));
    } else {
      leads := "";
      NoLeads();
    }
  }

  lemma LStripLeadUnfolds(s: string)
    ensures LStripLead(s) == if s != "" && IsLead(s[0]) then LStripLead(s[1..]) else s
  {
  }

  lemma NoLeads()
    ensures AreLeads("")
  {
  }

  lemma OneMoreLead(s: string, more: string, rest: string) returns (leads: string)
    requires StartsWithLead(s) && AreLeads(more) && s[1..] == more + rest
    ensures s == leads + rest && AreLeads(leads)
  {
    leads := [s[0]] + more;
    assert leads[1..] == more && s == [s[0]] + s[1..];
  }

  /**
   The whole text of a mention: an opening, the longest name in whatever casing, then blanks,
   tabs, colons and commas, as many as there are, then whitespace, and between that and the
   whitespace at the end, the remainder.
   */
  lemma MatchIsExact(casing: Casing, text: string, who: Identity, r: string)
    returns (name: string, front: string, named: string, leads: string, blank: string, tail: string)
    requires IsMatch(casing, text, who, Some(r))
    ensures LongestMention(casing, text, who, name)
    ensures text == front + (named + (leads + (blank + r + tail))) && IsOpening(front)
    ensures |named| == |name| && casing.Lower(named) == casing.Lower(name)
    ensures AreLeads(leads) && AllSpace(blank) && AllSpace(tail) && Trimmed(r)
    ensures !StartsWithLead(blank + r + tail)
  {
    name :| LongestMention(casing, text, who, name) && r == Remainder(Body(text), |name|);
    MentionedIsOpening(casing, text, who, name);
    hide *;
    var body := Body(text);
    front := BodyExactly(text);
    var after;
    named, after := MentionedPart(casing, body, name);
    leads := LeadsExactly(after);
    RemainderIsStrip(body, |name|);
    blank, tail := StripInThree(LStripLead(after));
  }

  lemma MentionedPart(casing: Casing, body: string, name: string) returns (named: string, after: string)
    requires |name| <= |body| && casing.Lower(body)[..|name|] == casing.Lower(name)
    ensures body == named + after && after == body[|name|..]
    ensures |named| == |name| && casing.Lower(named) == casing.Lower(name)
  {
    named, after := body[..|name|], body[|name|..];
    NamedInLower(casing, body, name);
  }

  lemma StripInThree(s: string) returns (blank: string, tail: string)
    ensures s == blank + Strip(s) + tail && AllSpace(blank) && AllSpace(tail) && Trimmed(Strip(s))
  {
    hide AllSpace, Strip, Trimmed;
    var lo, hi := StripIsSlice(s);
    blank, tail := s[..lo], s[hi..];
  }

  lemma RemainderIsStrip(body: string, length: nat)
    requires length <= |body|
    ensures Remainder(body, length) == Strip(LStripLead(body[length..]))
  {
  }

  lemma MentionedIsOpening(casing: Casing, text: string, who: Identity, name: string)
    requires LongestMention(casing, text, who, name)
    ensures |name| <= |Body(text)| && casing.Lower(Body(text))[..|name|] == casing.Lower(name)
  {
    hide Body, IsCandidate;
  }

  lemma NamedInLower(casing: Casing, body: string, name: string)
    requires |name| <= |body| && casing.Lower(body)[..|name|] == casing.Lower(name)
    ensures casing.Lower(body[..|name|]) == casing.Lower(name)
  {
    assert forall i | 0 <= i < |name| :: casing.Lower(body)[..|name|][i] == casing.lower(body[i]);
  }
}
