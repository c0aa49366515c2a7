/** The literal layer of the rig's scrubber: learned secrets, replaced longest first. */
module Scrub {
  import opened Prelude

  const SECRET := "<redacted>"
  const WORD := "redacted"
  const MIN_SECRET_LEN := 3

  /** Letters that IGNORECASE takes to be the same fold to the same letter. */
  type Fold = char -> char

  /** The brackets of the placeholder have no other case. */
  ghost predicate KeepsBrackets(fold: Fold) {
    && (forall c: char :: fold(c) == fold('<') ==> c == '<')
    && (forall c: char :: fold(c) == fold('>') ==> c == '>')
  }

  predicate MatchAt(fold: Fold, text: string, i: int, secret: string) {
    && 0 <= i <= |text| - |secret|
    && forall k | 0 <= k < |secret| :: fold(text[i + k]) == fold(secret[k])
  }

  ghost predicate Occurs(fold: Fold, text: string, secret: string) {
    exists i :: MatchAt(fold, text, i, secret)
  }

  /** re.sub of an escaped literal: leftmost matches, left to right, not overlapping. */
  function Sub(fold: Fold, secret: string, text: string): string
    requires secret != ""
  {
    if text == "" then ""
    else if MatchAt(fold, text, 0, secret) then SECRET + Sub(fold, secret, text[|secret|..])
    else [text[0]] + Sub(fold, secret, text[1..])
  }

  ghost predicate Usable(secrets: seq<string>) {
    forall k | 0 <= k < |secrets| :: |secrets[k]| >= MIN_SECRET_LEN
  }

  /** One replacement after another. */
  function Layer(fold: Fold, secrets: seq<string>, text: string): string
    requires forall k | 0 <= k < |secrets| :: secrets[k] != ""
  {
    if secrets == [] then text
    else
      var n := |secrets| - 1;
      Sub(fold, secrets[n], Layer(fold, secrets[..n], text))
  }

  ghost predicate LongestFirst(secrets: seq<string>) {
    forall i, j | 0 <= i < j < |secrets| :: |secrets[i]| >= |secrets[j]| && secrets[i] != secrets[j]
  }

  function Elements(s: seq<string>): set<string> {
    set x | x in s
  }

  /** The values worth learning: trimmed, and not too short. */
  function Learned(values: seq<Option<string>>): set<string> {
    set v | v in values && v.Some? && |Strip(v.value)| >= MIN_SECRET_LEN :: Strip(v.value)
  }

  // ---------------------------------------------------------------------
  // The scrubber
  // ---------------------------------------------------------------------

  lemma LongestExists(s: set<string>) returns (longest: string)
    requires s != {}
    ensures longest in s && forall t | t in s :: |t| <= |longest|
  {
    longest :| longest in s;
    if t :| t in s && |t| > |longest| {
      var others := s - {longest};
      assert t in others;
      longest := LongestExists(others);
    }
  }

  lemma ElementsStep(s: seq<string>, x: string)
    ensures Elements(s + [x]) == Elements(s) + {x}
    ensures forall i | 0 <= i < |s| :: s[i] in Elements(s)
  {
  }

  lemma LongestNext(out: seq<string>, left: set<string>, longest: string)
    requires LongestFirst(out) && longest in left && forall i | 0 <= i < |out| :: out[i] !in left
    requires forall i, t | 0 <= i < |out| && t in left :: |t| <= |out[i]|
    requires forall t | t in left :: |t| <= |longest|
    ensures LongestFirst(out + [longest])
    ensures forall i, t | 0 <= i < |out + [longest]| && t in left :: |t| <= |(out + [longest])[i]|
  {
  }

  /** sorted(secrets, key=len, reverse=True) of a set: ties come out in any order. */
  method SortByLength(secrets: set<string>) returns (out: seq<string>)
    ensures LongestFirst(out) && Elements(out) == secrets
  {
    out := [];
    var left := secrets;
    assert Elements(out) == {};
    hide Elements;
    while left != {}
      invariant LongestFirst(out) && Elements(out) + left == secrets && Elements(out) !! left
      invariant forall i, t | 0 <= i < |out| && t in left :: |t| <= |out[i]|
      decreases left
    {
      ghost var witness' := LongestExists(left);
      var longest :| longest in left && forall t | t in left :: |t| <= |longest|;
      ElementsStep(out, longest);
      LongestNext(out, left, longest);
      hide LongestFirst;
      out, left := out + [longest], left - {longest};
    }
  }

  class Scrubber {
    var secrets: seq<string>

    ghost predicate Valid()
      reads this
    {
      LongestFirst(secrets) && Usable(secrets)
    }

    constructor (values: seq<Option<string>>)
      ensures Valid() && Elements(secrets) == Learned(values)
    {
      hide Strip;
      var cleaned := Clean(values);
      var sorted := SortByLength(cleaned);
      assert forall k | 0 <= k < |sorted| :: sorted[k] in Elements(sorted);
      secrets := sorted;
    }

    static method Clean(values: seq<Option<string>>) returns (cleaned: set<string>)
      ensures cleaned == Learned(values)
    {
      hide Strip;
      cleaned := {};
      for n := 0 to |values|
        invariant cleaned == Learned(values[..n])
      {
        assert values[..n + 1] == values[..n] + [values[n]];
        var value := if values[n].Some? then Strip(values[n].value) else "";
        if |value| >= MIN_SECRET_LEN {
          cleaned := cleaned + {value};
        }
      }
      assert values[..|values|] == values;
    }

    method Add(values: seq<Option<string>>)
      requires Valid()
      modifies this
      ensures Valid() && Elements(secrets) == old(Elements(secrets)) + Learned(values)
    {
      hide Strip, LongestFirst;
      var cleaned := Clean(values);
      var sorted := SortByLength(Elements(secrets) + cleaned);
      assert forall k | 0 <= k < |sorted| :: sorted[k] in Elements(sorted);
      assert forall k | 0 <= k < |sorted| :: |sorted[k]| >= MIN_SECRET_LEN;
      secrets := sorted;
    }

    /** The literal layer of scrub. */
    method ScrubLiterals(fold: Fold, text: string) returns (out: string)
      requires Valid()
      ensures out == Layer(fold, secrets, text)
    {
      EmptyStaysEmpty(fold, secrets);
      if text == "" {
        return text;
      }
      out := text;
      for n := 0 to |secrets|
        invariant out == Layer(fold, secrets[..n], text)
      {
        assert secrets[..n + 1][..n] == secrets[..n];
        out := Sub(fold, secrets[n], out);
      }
      assert secrets[..|secrets|] == secrets;
    }
  }

  lemma {:induction false} EmptyStaysEmpty(fold: Fold, secrets: seq<string>)
    requires Usable(secrets)
    ensures Layer(fold, secrets, "") == ""
  {
    if secrets != [] {
      EmptyStaysEmpty(fold, secrets[..|secrets| - 1]);
    }
  }

  // ---------------------------------------------------------------------
  // What a substitution does
  // ---------------------------------------------------------------------

  /** gaps[0] + found[0] + gaps[1] + ... + gaps[n] */
  function Weave(gaps: seq<string>, found: seq<string>): string
    requires |gaps| == |found| + 1
  {
    if found == [] then gaps[0] else gaps[0] + found[0] + Weave(gaps[1..], found[1..])
  }

  function Redacted(n: nat): (marks: seq<string>)
    ensures |marks| == n
  {
    if n == 0 then [] else [SECRET] + Redacted(n - 1)
  }

  /** Every piece found is the secret, in some casing, and no occurrence begins before it in
      what is left of the text. */
  ghost predicate IsScan(fold: Fold, secret: string, gaps: seq<string>, found: seq<string>)
    requires |gaps| == |found| + 1
    decreases |found|
  {
    && (forall i | 0 <= i < |gaps[0]| :: !MatchAt(fold, Weave(gaps, found), i, secret))
    && (found != [] ==>
          && |found[0]| == |secret| && MatchAt(fold, found[0], 0, secret)
          && IsScan(fold, secret, gaps[1..], found[1..]))
  }

  /** A substitution replaces the occurrences that a scan from the left finds, and keeps every
      other character of the text. */
  lemma {:induction false} SubIsExact(fold: Fold, secret: string, text: string)
    returns (gaps: seq<string>, found: seq<string>)
    requires secret != ""
    ensures |gaps| == |found| + 1 && IsScan(fold, secret, gaps, found)
    ensures text == Weave(gaps, found) && Sub(fold, secret, text) == Weave(gaps, Redacted(|found|))
    decreases |text|
  {
    SubUnfolds(fold, secret, text);
    if text == "" {
      gaps, found := [""], [];
    } else if MatchAt(fold, text, 0, secret) {
      var gaps', found' := SubIsExact(fold, secret, text[|secret|..]);
      gaps, found := FoundHere(fold, secret, text, gaps', found');
    } else {
      var gaps', found' := SubIsExact(fold, secret, text[1..]);
      gaps := WiderGap(fold, secret, text, gaps', found');
      found := found';
    }
  }

  lemma FoundHere(fold: Fold, secret: string, text: string, gaps': seq<string>, found': seq<string>)
    returns (gaps: seq<string>, found: seq<string>)
    requires secret != "" && MatchAt(fold, text, 0, secret)
    requires |gaps'| == |found'| + 1 && IsScan(fold, secret, gaps', found')
    requires text[|secret|..] == Weave(gaps', found')
    ensures |gaps| == |found| + 1 && IsScan(fold, secret, gaps, found) && text == Weave(gaps, found)
    ensures Weave(gaps, Redacted(|found|)) == SECRET + Weave(gaps', Redacted(|found'|))
  {
    gaps, found := [""] + gaps', [text[..|secret|]] + found';
    assert gaps[1..] == gaps' && found[1..] == found' && Redacted(|found|)[1..] == Redacted(|found'|);
    assert text == text[..|secret|] + text[|secret|..];
    HeadMatches(fold, secret, text);
    hide MatchAt;
  }

  lemma HeadMatches(fold: Fold, secret: string, text: string)
    requires MatchAt(fold, text, 0, secret)
    ensures |secret| <= |text| && MatchAt(fold, text[..|secret|], 0, secret)
  {
    forall k | 0 <= k < |secret| ensures fold(text[..|secret|][0 + k]) == fold(secret[k]) {
      assert fold(text[0 + k]) == fold(secret[k]);
    }
  }

  lemma WiderGap(fold: Fold, secret: string, text: string, gaps': seq<string>, found: seq<string>)
    returns (gaps: seq<string>)
    requires text != "" && !MatchAt(fold, text, 0, secret)
    requires |gaps'| == |found| + 1 && IsScan(fold, secret, gaps', found) && text[1..] == Weave(gaps', found)
    ensures |gaps| == |found| + 1 && IsScan(fold, secret, gaps, found) && text == Weave(gaps, found)
    ensures Weave(gaps, Redacted(|found|)) == [text[0]] + Weave(gaps', Redacted(|found|))
  {
    gaps := [[text[0]] + gaps'[0]] + gaps'[1..];
    assert gaps[1..] == gaps'[1..];
    assert text == [text[0]] + text[1..] == Weave(gaps, found);
    forall i | 0 <= i < |gaps[0]| ensures !MatchAt(fold, text, i, secret) {
      if i > 0 {
        MatchInSuffix(fold, text, 1, i - 1, secret);
      }
    }
    hide MatchAt;
  }

  /** What is worth learning: trimmed, of at least three characters. */
  lemma LearnedExactly(values: seq<Option<string>>, v: string)
    ensures v in Learned(values) <==>
      |v| >= 3 && exists k | 0 <= k < |values| :: values[k].Some? && Strip(values[k].value) == v
  {
    hide Strip;
    if v in Learned(values) {
      var o :| o in values && o.Some? && Strip(o.value) == v;
      var k :| 0 <= k < |values| && values[k] == o;
    }
  }

  // ---------------------------------------------------------------------
  // What never appears in the output
  // ---------------------------------------------------------------------

  ghost predicate NoBrackets(s: string) {
    forall k | 0 <= k < |s| :: s[k] != '<' && s[k] != '>'
  }

  /** No bracket, and not a piece of the placeholder's own word. */
  ghost predicate Distinct(fold: Fold, s: string) {
    s != "" && NoBrackets(s) && !Occurs(fold, WORD, s)
  }

  /** A prefix of the output without a placeholder is the same prefix of the input. */
  lemma {:induction false} PrefixIsKept(fold: Fold, secret: string, text: string, n: nat)
    requires secret != "" && n <= |Sub(fold, secret, text)|
    requires forall k | 0 <= k < n :: Sub(fold, secret, text)[k] != '<'
    ensures n <= |text| && Sub(fold, secret, text)[..n] == text[..n]
  {
    if n > 0 {
      assert Sub(fold, secret, text)[0] != '<';
      var rest := Sub(fold, secret, text[1..]);
      assert Sub(fold, secret, text) == [text[0]] + rest;
      forall k | 0 <= k < n - 1 ensures rest[k] != '<' {
        assert Sub(fold, secret, text)[k + 1] != '<';
      }
      PrefixIsKept(fold, secret, text[1..], n - 1);
    }
  }

  /** A text without brackets is matched by characters that are not brackets. */
  lemma MatchedIsPlain(fold: Fold, out: string, i: int, s: string, k: int)
    requires KeepsBrackets(fold) && NoBrackets(s) && MatchAt(fold, out, i, s) && i <= k < i + |s|
    ensures out[k] != '<' && out[k] != '>'
  {
    assert fold(out[i + (k - i)]) == fold(s[k - i]);
  }

  lemma MatchInsideWord(fold: Fold, rest: string, s: string, i: int)
    requires MatchAt(fold, SECRET + rest, i, s) && 1 <= i && i + |s| < |SECRET|
    ensures Occurs(fold, WORD, s)
  {
    forall k | 0 <= k < |s| ensures fold(WORD[i - 1 + k]) == fold(s[k]) {
      assert fold((SECRET + rest)[i + k]) == fold(s[k]) && WORD[i - 1 + k] == SECRET[i + k];
    }
    assert MatchAt(fold, WORD, i - 1, s);
  }

  /** In an output that opens with a placeholder, a distinct text shows only after it. */
  lemma NotAcrossPlaceholder(fold: Fold, rest: string, s: string, i: int)
    requires KeepsBrackets(fold) && Distinct(fold, s) && MatchAt(fold, SECRET + rest, i, s)
    ensures i >= |SECRET| && MatchAt(fold, rest, i - |SECRET|, s)
  {
    var out, last := SECRET + rest, |SECRET| - 1;
    assert out[0] == '<' && out[last] == '>' && s != "";
    if i == 0 {
      MatchedIsPlain(fold, out, i, s, 0);
    }
    if i <= last < i + |s| {
      MatchedIsPlain(fold, out, i, s, last);
    }
    if i <= last {
      MatchInsideWord(fold, rest, s, i);
    }
    MatchInSuffix(fold, out, |SECRET|, i - |SECRET|, s);
    assert out[|SECRET|..] == rest;
  }

  lemma HeadWasThere(fold: Fold, secret: string, text: string, s: string)
    requires KeepsBrackets(fold) && secret != "" && Distinct(fold, s)
    requires MatchAt(fold, Sub(fold, secret, text), 0, s)
    ensures MatchAt(fold, text, 0, s)
  {
    hide Sub;
    var out := Sub(fold, secret, text);
    forall k | 0 <= k < |s| ensures out[k] != '<' {
      MatchedIsPlain(fold, out, 0, s, k);
    }
    PrefixIsKept(fold, secret, text, |s|);
    forall k | 0 <= k < |s| ensures fold(text[0 + k]) == fold(s[k]) {
      assert out[..|s|][k] == text[..|s|][k];
      assert fold(out[0 + k]) == fold(s[k]);
    }
  }

  /** Where a distinct text shows in the output it showed in the input, at a place the
      scan passed over. */
  lemma {:induction false} OccurrenceWasThere(fold: Fold, secret: string, text: string, s: string, i: nat)
    returns (j: nat)
    requires KeepsBrackets(fold) && secret != "" && Distinct(fold, s)
    requires MatchAt(fold, Sub(fold, secret, text), i, s)
    ensures MatchAt(fold, text, j, s) && !MatchAt(fold, text, j, secret)
    decreases |text|
  {
    SubUnfolds(fold, secret, text);
    NothingInEmpty(fold, s);
    hide Sub, MatchAt, KeepsBrackets, Distinct;
    if MatchAt(fold, text, 0, secret) {
      var rest := text[|secret|..];
      NotAcrossPlaceholder(fold, Sub(fold, secret, rest), s, i);
      j := OccurrenceWasThere(fold, secret, rest, s, i - |SECRET|);
      MatchInSuffix(fold, text, |secret|, j, s);
      MatchInSuffix(fold, text, |secret|, j, secret);
      j := j + |secret|;
    } else if i > 0 {
      MatchInSuffix(fold, Sub(fold, secret, text), 1, i - 1, s);
      j := OccurrenceWasThere(fold, secret, text[1..], s, i - 1);
      MatchInSuffix(fold, text, 1, j, s);
      MatchInSuffix(fold, text, 1, j, secret);
      j := j + 1;
    } else {
      HeadWasThere(fold, secret, text, s);
      j := 0;
    }
  }

  lemma SubUnfolds(fold: Fold, secret: string, text: string)
    requires secret != ""
    ensures MatchAt(fold, text, 0, secret) ==> |secret| <= |text|
    ensures var out := Sub(fold, secret, text);
      if text == "" then out == ""
      else if MatchAt(fold, text, 0, secret) then out == SECRET + Sub(fold, secret, text[|secret|..])
      else out != "" && out[1..] == Sub(fold, secret, text[1..])
  {
  }

  lemma NothingInEmpty(fold: Fold, s: string)
    ensures Distinct(fold, s) ==> forall i :: !MatchAt(fold, "", i, s)
  {
  }

  lemma MatchInSuffix(fold: Fold, text: string, skip: nat, j: int, s: string)
    requires skip <= |text| && 0 <= j
    ensures MatchAt(fold, text[skip..], j, s) <==> MatchAt(fold, text, skip + j, s)
  {
    if MatchAt(fold, text, skip + j, s) {
      forall k | 0 <= k < |s| ensures fold(text[skip..][j + k]) == fold(s[k]) {
        assert fold(text[skip + j + k]) == fold(s[k]);
      }
    }
  }

  /** A learned, distinct secret never shows in the output, whatever is replaced before
      it or after it. */
  lemma {:induction false} SecretsNeverShow(fold: Fold, secrets: seq<string>, text: string, s: string)
    requires KeepsBrackets(fold) && Usable(secrets)
    requires s in secrets && Distinct(fold, s)
    ensures !Occurs(fold, Layer(fold, secrets, text), s)
  {
    var n := |secrets| - 1;
    var before := Layer(fold, secrets[..n], text);
    if i :| MatchAt(fold, Layer(fold, secrets, text), i, s) {
      var j := OccurrenceWasThere(fold, secrets[n], before, s, i);
      assert s != secrets[n];
      SecretsNeverShow(fold, secrets[..n], text, s);
    }
  }

  /** When a shorter secret's turn comes, no longer one is left for it to cut into. */
  lemma NoTailLeaks(fold: Fold, secrets: seq<string>, text: string, turn: nat, longer: string)
    requires KeepsBrackets(fold) && Usable(secrets) && LongestFirst(secrets)
    requires turn < |secrets| && longer in secrets && |longer| > |secrets[turn]|
    requires Distinct(fold, longer)
    ensures !Occurs(fold, Layer(fold, secrets[..turn], text), longer)
  {
    var k :| 0 <= k < |secrets| && secrets[k] == longer;
    assert k < turn;
    assert secrets[..turn][k] == longer;
    SecretsNeverShow(fold, secrets[..turn], text, longer);
  }

  // ---------------------------------------------------------------------
  // What can appear again
  // ---------------------------------------------------------------------

  /** The placeholder stands at place p of out. */
  predicate PlaceholderAt(out: string, p: int) {
    0 <= p <= |out| - |SECRET| && out[p..p + |SECRET|] == SECRET
  }

  /** A substitution leaves a text alone or puts a whole placeholder into it. */
  lemma {:induction false} AloneOrPlaceholder(fold: Fold, secret: string, text: string) returns (p: int)
    requires secret != ""
    ensures Sub(fold, secret, text) == text || PlaceholderAt(Sub(fold, secret, text), p)
  {
    p := 0;
    if text != "" && !MatchAt(fold, text, 0, secret) {
      p := AloneOrPlaceholder(fold, secret, text[1..]);
      hide MatchAt;
      OneFurther(text[0], Sub(fold, secret, text[1..]), p);
      assert [text[0]] + text[1..] == text;
      p := p + 1;
    }
  }

  lemma OneFurther(c: char, out: string, p: int)
    ensures PlaceholderAt(out, p) ==> PlaceholderAt([c] + out, p + 1)
  {
    if PlaceholderAt(out, p) {
      assert ([c] + out)[p + 1..p + 1 + |SECRET|] == out[p..p + |SECRET|];
    }
  }

  /** A placeholder shows every piece of its word. */
  lemma PieceShows(fold: Fold, out: string, p: int, s: string)
    requires PlaceholderAt(out, p) && Occurs(fold, WORD, s)
    ensures Occurs(fold, out, s)
  {
    var i :| MatchAt(fold, WORD, i, s);
    forall k | 0 <= k < |s| ensures fold(out[p + 1 + i + k]) == fold(s[k]) {
      assert fold(WORD[i + k]) == fold(s[k]);
      assert WORD[i + k] == SECRET[1 + i + k] == out[p..p + |SECRET|][1 + i + k];
    }
    assert MatchAt(fold, out, p + 1 + i, s);
  }

  /** A piece of the word that shows in a text shows after every substitution. */
  lemma {:induction false} PieceStays(fold: Fold, secrets: seq<string>, text: string, s: string)
    requires Usable(secrets)
    requires Occurs(fold, WORD, s) && Occurs(fold, text, s)
    ensures Occurs(fold, Layer(fold, secrets, text), s)
  {
    if secrets != [] {
      var n := |secrets| - 1;
      var before := Layer(fold, secrets[..n], text);
      PieceStays(fold, secrets[..n], text, s);
      var p := AloneOrPlaceholder(fold, secrets[n], before);
      hide Occurs, Sub, PlaceholderAt;
      if Sub(fold, secrets[n], before) != before {
        PieceShows(fold, Sub(fold, secrets[n], before), p, s);
      }
    }
  }

  /** Some text makes the layer show s. */
  ghost predicate CanShow(fold: Fold, secrets: seq<string>, s: string)
    requires Usable(secrets)
  {
    exists text :: Occurs(fold, Layer(fold, secrets, text), s)
  }

  /**
   Whatever secrets are learned, of those without brackets exactly the pieces of the
   placeholder's word can show in the output.
   */
  lemma DistinctIsExact(fold: Fold, secrets: seq<string>, s: string)
    requires KeepsBrackets(fold) && Usable(secrets)
    requires s in secrets && NoBrackets(s)
    ensures CanShow(fold, secrets, s) <==> Occurs(fold, WORD, s)
  {
    assert MatchAt(fold, s, 0, s);
    assert Occurs(fold, s, s);
    hide Occurs, Layer, NoBrackets;
    if Occurs(fold, WORD, s) {
      PieceStays(fold, secrets, s, s);
    }
    if text :| Occurs(fold, Layer(fold, secrets, text), s) {
      if !Occurs(fold, WORD, s) {
        SecretsNeverShow(fold, secrets, text, s);
      }
    }
  }
}
